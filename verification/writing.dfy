/** What `generateDraft` does around the model call: the empty-title guard
    before it and the post-processing of the generated text after it. The
    generated text is a parameter; the prompt and the call are left out.

    The title is the capture of the first match of `/^#\s+(.+)$/m`: `^` and
    `$` match at line boundaries, `\s` is the whitespace class (which
    includes the line terminators), `.` is anything but a line terminator,
    and a greedy `\s+` gives characters back when `.+` cannot start. */
module Writing {
  import opened Wrappers
  import opened Strings
  import opened Artefacts

  // ---------------------------------------------------------------------
  // The title
  // ---------------------------------------------------------------------

  /** `^` in multiline mode. */
  predicate LineStart(s: string, i: nat) {
    i == 0 || (0 < i <= |s| && IsLineTerminator(s[i - 1]))
  }

  predicate NoTerminator(s: string, lo: nat, hi: nat)
    requires lo <= hi <= |s|
  {
    forall m :: lo <= m < hi ==> !IsLineTerminator(s[m])
  }

  /** The regular expression matches from `i`, its `\s+` covering
      `s[i+1..k]` and its capture `s[k..e]`. */
  predicate HeadingMatch(s: string, i: nat, k: int, e: int) {
    && i + 2 <= k < e <= |s|
    && LineStart(s, i) && s[i] == '#'
    && AllWhitespace(s[i + 1..k])
    && NoTerminator(s, k, e)
    && (e == |s| || IsLineTerminator(s[e]))
  }

  /** Where a greedy `.+` from `k` stops. */
  function LineEnd(s: string, k: nat): (e: nat)
    requires k <= |s|
    ensures k <= e <= |s| && NoTerminator(s, k, e)
    ensures e == |s| || IsLineTerminator(s[e])
    decreases |s| - k
  {
    if k == |s| || IsLineTerminator(s[k]) then k else LineEnd(s, k + 1)
  }

  /** The last position in `[lo, hi)` that `.` can match. */
  function LastNonTerminator(s: string, lo: nat, hi: nat): (m: Option<nat>)
    requires lo <= hi <= |s|
    ensures m.Some? ==> lo <= m.value < hi && !IsLineTerminator(s[m.value])
    ensures m.Some? ==> forall n :: m.value < n < hi ==> IsLineTerminator(s[n])
    ensures m.None? ==> forall n :: lo <= n < hi ==> IsLineTerminator(s[n])
    decreases hi - lo
  {
    if hi == lo then None
    else if !IsLineTerminator(s[hi - 1]) then Some(hi - 1)
    else LastNonTerminator(s, lo, hi - 1)
  }

  /** A capture ends exactly where the line it starts on ends. */
  lemma CaptureEndsAtLineEnd(s: string, i: nat, k: nat, e: nat)
    requires HeadingMatch(s, i, k, e)
    ensures e == LineEnd(s, k)
  {
  }

  /** A capture starts on a character `.` can match. */
  lemma CaptureStartsOnLine(s: string, i: nat, k: int, e: int)
    ensures HeadingMatch(s, i, k, e) ==> !IsLineTerminator(s[k])
  {
  }

  /** A slice of whitespace characters is a whitespace string. */
  lemma WhitespaceSlice(s: string, lo: nat, hi: nat)
    requires lo <= hi <= |s|
    requires forall m :: lo <= m < hi ==> IsWhitespace(s[m])
    ensures AllWhitespace(s[lo..hi])
  {
    var t := s[lo..hi];
    forall n | 0 <= n < |t| ensures IsWhitespace(t[n]) {
      assert t[n] == s[lo + n];
    }
  }

  /** The attempt at start position `i`: the match the backtracking engine
      finds there, which is the one whose `\s+` is longest. */
  function AttemptAt(s: string, i: nat): (m: Option<(nat, nat)>)
    requires i <= |s|
    ensures m.Some? ==> HeadingMatch(s, i, m.value.0, m.value.1)
    ensures m.Some? ==> forall k, e :: HeadingMatch(s, i, k, e) ==> k <= m.value.0
    ensures m.None? ==> forall k, e :: !HeadingMatch(s, i, k, e)
  {
    if !(i < |s| && LineStart(s, i) && s[i] == '#') then None
    else
      var j := SkipWhitespace(s, i + 1);
      assert forall k, e :: HeadingMatch(s, i, k, e) ==> k <= j by {
        forall k, e | HeadingMatch(s, i, k, e) ensures k <= j {
        }
      }
      if j == i + 1 then None
      else if j < |s| then
        WhitespaceSlice(s, i + 1, j);
        Some((j, LineEnd(s, j)))
      else
        match LastNonTerminator(s, i + 2, j)
        case Some(k) =>
          WhitespaceSlice(s, i + 1, k);
          assert forall k', e' :: HeadingMatch(s, i, k', e') ==> k' <= k by {
            forall k', e' | HeadingMatch(s, i, k', e') ensures k' <= k {
              CaptureStartsOnLine(s, i, k', e');
            }
          }
          Some((k, LineEnd(s, k)))
        case None =>
          assert forall k', e' :: !HeadingMatch(s, i, k', e') by {
            forall k', e' | HeadingMatch(s, i, k', e') ensures false {
              CaptureStartsOnLine(s, i, k', e');
            }
          }
          None
  }

  /** The first start position at or after `i` where the attempt succeeds,
      with the match found there. */
  function FirstHeading(s: string, i: nat): (m: Option<(nat, nat, nat)>)
    requires i <= |s|
    ensures m.Some? ==> (i <= m.value.0 <= |s|
      && AttemptAt(s, m.value.0) == Some((m.value.1, m.value.2)))
    ensures m.Some? ==> forall n :: i <= n < m.value.0 ==> AttemptAt(s, n).None?
    ensures m.None? ==> forall n :: i <= n <= |s| ==> AttemptAt(s, n).None?
    decreases |s| - i
  {
    match AttemptAt(s, i)
    case Some((k, e)) => Some((i, k, e))
    case None => if i == |s| then None else FirstHeading(s, i + 1)
  }

  /** `text.match(/^#\s+(.+)$/m)?.[1]`. */
  function HeadingTitle(text: string): (t: Option<string>)
    ensures t.Some? ==> (|t.value| > 0
      && forall n :: 0 <= n < |t.value| ==> !IsLineTerminator(t.value[n]))
  {
    match FirstHeading(text, 0)
    case Some((i, k, e)) => Some(text[k..e])
    case None => None
  }

  /** A `##` line never starts a match: the character after the first `#`
      must be whitespace. */
  lemma DoubleHashNeverMatches(s: string, i: nat)
    requires i + 1 < |s| && s[i] == '#' && s[i + 1] == '#'
    ensures AttemptAt(s, i).None?
  {
  }

  /** A text that opens with `#`, spaces, and a heading line gives that
      line as the title. */
  lemma HeadingOnFirstLine(w: string, t: string, rest: string)
    requires |w| > 0 && AllWhitespace(w) && forall n :: 0 <= n < |w| ==> !IsLineTerminator(w[n])
    requires |t| > 0 && !IsWhitespace(t[0]) && forall n :: 0 <= n < |t| ==> !IsLineTerminator(t[n])
    requires |rest| == 0 || IsLineTerminator(rest[0])
    ensures HeadingTitle("#" + w + t + rest) == Some(t)
  {
    var s := "#" + w + t + rest;
    var k, e := 1 + |w|, 1 + |w| + |t|;
    assert s[1..k] == w;
    assert s[k..e] == t;
    assert HeadingMatch(s, 0, k, e);
    CaptureEndsAtLineEnd(s, 0, k, e);
    var m := AttemptAt(s, 0);
    assert m.value.0 == k;
    CaptureEndsAtLineEnd(s, 0, m.value.0, m.value.1);
  }

  /** A bare `#` line is followed into the next line, whatever that line
      holds, even a `##` heading: `\s+` runs over the line break. */
  lemma BareHashTakesNextLine(rest: string)
    requires |rest| > 0 && !IsWhitespace(rest[0])
    ensures HeadingTitle("#\n" + rest) == Some(rest[..LineEnd(rest, 0)])
  {
    var s := "#\n" + rest;
    var l := LineEnd(rest, 0);
    assert forall n :: 0 <= n <= |rest| - 0 ==> s[2 + n..] == rest[n..];
    assert LineEnd(s, 2) == 2 + l by {
      LineEndShift(s, 2, rest, 0);
    }
    assert s[1..2] == "\n";
    assert HeadingMatch(s, 0, 2, 2 + l);
    var m := AttemptAt(s, 0);
    assert m.value.0 == 2;
    CaptureEndsAtLineEnd(s, 0, m.value.0, m.value.1);
    assert s[2..2 + l] == rest[..l];
  }

  lemma {:induction false} LineEndShift(s: string, d: nat, t: string, k: nat)
    requires d <= |s| && s[d..] == t && k <= |t|
    ensures LineEnd(s, d + k) == d + LineEnd(t, k)
    decreases |t| - k
  {
    if k < |t| {
      assert s[d + k] == t[k];
      if !IsLineTerminator(t[k]) {
        LineEndShift(s, d, t, k + 1);
      }
    }
  }

  // ---------------------------------------------------------------------
  // The word count
  // ---------------------------------------------------------------------

  /** `String.prototype.split(/\s+/)` from piece start `p`, scanning at
      `q`: each maximal whitespace run ends a piece. */
  function SplitFrom(s: string, p: nat, q: nat): seq<string>
    requires p <= q <= |s|
    decreases |s| - q
  {
    if q == |s| then [s[p..]]
    else if IsWhitespace(s[q]) then
      var e := SkipWhitespace(s, q);
      [s[p..q]] + SplitFrom(s, e, e)
    else SplitFrom(s, p, q + 1)
  }

  /** `.filter(Boolean)`: drop the empty pieces. */
  function NonEmpty(pieces: seq<string>): (r: seq<string>)
    ensures forall n :: 0 <= n < |r| ==> |r[n]| > 0
  {
    if |pieces| == 0 then []
    else (if |pieces[0]| > 0 then [pieces[0]] else []) + NonEmpty(pieces[1..])
  }

  /** `text.split(/\s+/).filter(Boolean)`: the maximal runs of
      non-whitespace, which rebuild the text with whitespace gaps between
      them. */
  function Words(text: string): (ws: seq<string>)
    ensures exists gaps :: Separates(gaps, ws) && Interleave(gaps, ws) == text
  {
    SplitFromStartDecomposes(text);
    NonEmpty(SplitFrom(text, 0, 0))
  }

  /** `gaps[0] + words[0] + gaps[1] + ... + words[n-1] + gaps[n]`. */
  function Interleave(gaps: seq<string>, words: seq<string>): string
    requires |gaps| == |words| + 1
  {
    if |words| == 0 then gaps[0]
    else gaps[0] + words[0] + Interleave(gaps[1..], words[1..])
  }

  /** `words` are non-empty runs free of whitespace, separated by
      non-empty whitespace gaps and framed by possibly empty ones. */
  predicate Separates(gaps: seq<string>, words: seq<string>) {
    && |gaps| == |words| + 1
    && (forall n :: 0 <= n < |gaps| ==> AllWhitespace(gaps[n]))
    && (forall n :: 0 < n < |words| ==> |gaps[n]| > 0)
    && (forall n :: 0 <= n < |words| ==> |words[n]| > 0 && NoWhitespace(words[n]))
  }

  predicate NoWhitespace(w: string) {
    forall n :: 0 <= n < |w| ==> !IsWhitespace(w[n])
  }

  lemma {:induction false} InterleaveWidenFirstGap(a: string, gaps: seq<string>, words: seq<string>)
    requires |gaps| == |words| + 1
    ensures Interleave([a + gaps[0]] + gaps[1..], words) == a + Interleave(gaps, words)
  {
    var g := [a + gaps[0]] + gaps[1..];
    assert g[1..] == gaps[1..];
  }

  lemma WhitespaceConcat(a: string, b: string)
    requires AllWhitespace(a) && AllWhitespace(b)
    ensures AllWhitespace(a + b)
  {
    forall n | 0 <= n < |a + b| ensures IsWhitespace((a + b)[n]) {
      if n >= |a| {
        assert (a + b)[n] == b[n - |a|];
      }
    }
  }

  /** Whitespace in front of a decomposed text widens its first gap. */
  lemma PrependGap(gap: string, g: seq<string>, w: seq<string>) returns (gaps: seq<string>)
    requires AllWhitespace(gap) && Separates(g, w)
    ensures Separates(gaps, w) && Interleave(gaps, w) == gap + Interleave(g, w)
    ensures |gap| > 0 ==> |gaps[0]| > 0
  {
    gaps := [gap + g[0]] + g[1..];
    WhitespaceConcat(gap, g[0]);
    InterleaveWidenFirstGap(gap, g, w);
    assert forall n :: 1 <= n < |gaps| ==> gaps[n] == g[n];
  }

  /** A word and a whitespace run in front of a decomposed text make it one
      word longer. */
  lemma PrependWord(word: string, gap: string, g: seq<string>, w: seq<string>) returns (gaps: seq<string>)
    requires |word| > 0 && NoWhitespace(word) && |gap| > 0 && AllWhitespace(gap) && Separates(g, w)
    ensures Separates(gaps, [word] + w) && gaps[0] == ""
    ensures Interleave(gaps, [word] + w) == word + gap + Interleave(g, w)
  {
    var inner := PrependGap(gap, g, w);
    gaps := [""] + inner;
    var w' := [word] + w;
    assert gaps[1..] == inner && w'[1..] == w;
    assert forall n :: 1 <= n < |gaps| ==> gaps[n] == inner[n - 1];
    assert forall n :: 1 <= n < |w'| ==> w'[n] == w[n - 1];
  }

  lemma NonEmptyCons(x: string, rest: seq<string>)
    ensures NonEmpty([x] + rest) == (if |x| > 0 then [x] else []) + NonEmpty(rest)
  {
    assert ([x] + rest)[1..] == rest;
  }

  /** The piece after the last whitespace run. */
  lemma LastPiece(x: string) returns (gaps: seq<string>)
    requires NoWhitespace(x)
    ensures Separates(gaps, NonEmpty([x])) && Interleave(gaps, NonEmpty([x])) == x
    ensures |x| > 0 ==> gaps[0] == ""
  {
    NonEmptyCons(x, []);
    if |x| > 0 {
      gaps := ["", ""];
      assert Interleave(gaps, [x]) == "" + x + Interleave([""], []);
    } else {
      gaps := [""];
    }
  }

  /** A piece and a whitespace run in front of decomposed pieces: the
      piece, if non-empty, becomes a word, and the run joins the next gap. */
  lemma PrependPiece(x: string, gap: string, pieces: seq<string>, g: seq<string>) returns (gaps: seq<string>)
    requires NoWhitespace(x) && |gap| > 0 && AllWhitespace(gap)
    requires Separates(g, NonEmpty(pieces))
    ensures Separates(gaps, NonEmpty([x] + pieces))
    ensures Interleave(gaps, NonEmpty([x] + pieces)) == x + gap + Interleave(g, NonEmpty(pieces))
    ensures |x| > 0 ==> gaps[0] == ""
  {
    NonEmptyCons(x, pieces);
    var w := NonEmpty(pieces);
    if |x| > 0 {
      assert NonEmpty([x] + pieces) == [x] + w;
      gaps := PrependWord(x, gap, g, w);
    } else {
      assert NonEmpty([x] + pieces) == w;
      gaps := PrependGap(gap, g, w);
      assert x == "" && x + gap == gap;
    }
  }

  lemma SliceThree(s: string, p: nat, q: nat, e: nat)
    requires p <= q <= e <= |s|
    ensures s[p..] == s[p..q] + s[q..e] + s[e..]
  {
  }

  /** The inductive step at a whitespace run `s[q..e]` that ends the piece
      `s[p..q]` and precedes pieces decomposing `s[e..]`. */
  lemma WhitespaceStep(s: string, p: nat, q: nat, e: nat, rest: seq<string>, g': seq<string>)
    returns (gaps: seq<string>)
    requires p <= q < e <= |s| && NoWhitespace(s[p..q])
    requires forall m :: q <= m < e ==> IsWhitespace(s[m])
    requires Separates(g', NonEmpty(rest)) && Interleave(g', NonEmpty(rest)) == s[e..]
    ensures Separates(gaps, NonEmpty([s[p..q]] + rest))
    ensures Interleave(gaps, NonEmpty([s[p..q]] + rest)) == s[p..]
    ensures p < q ==> gaps[0] == ""
  {
    WhitespaceSlice(s, q, e);
    gaps := PrependPiece(s[p..q], s[q..e], rest, g');
    SliceThree(s, p, q, e);
  }

  /** The pieces from `p` on, once the empty ones are dropped, are the
      words of `s[p..]`, with gaps that rebuild it; while a word is under
      way (`p < q`) the first gap is empty. */
  lemma {:induction false} SplitDecomposes(s: string, p: nat, q: nat) returns (gaps: seq<string>)
    requires p <= q <= |s| && NoWhitespace(s[p..q])
    ensures Separates(gaps, NonEmpty(SplitFrom(s, p, q)))
    ensures Interleave(gaps, NonEmpty(SplitFrom(s, p, q))) == s[p..]
    ensures p < q ==> gaps[0] == ""
    decreases |s| - q
  {
    if q == |s| {
      gaps := LastPiece(s[p..]);
    } else if IsWhitespace(s[q]) {
      var e := SkipWhitespace(s, q);
      assert NoWhitespace(s[e..e]);
      var g' := SplitDecomposes(s, e, e);
      assert SplitFrom(s, p, q) == [s[p..q]] + SplitFrom(s, e, e);
      gaps := WhitespaceStep(s, p, q, e, SplitFrom(s, e, e), g');
    } else {
      assert NoWhitespace(s[p..q + 1]) by {
        var w, w' := s[p..q + 1], s[p..q];
        forall n | 0 <= n < |w| ensures !IsWhitespace(w[n]) {
          if n < |w'| {
            assert w[n] == w'[n];
          }
        }
      }
      gaps := SplitDecomposes(s, p, q + 1);
    }
  }

  /** The split of the whole text decomposes it. */
  lemma SplitFromStartDecomposes(text: string)
    ensures var ws := NonEmpty(SplitFrom(text, 0, 0));
      exists gaps :: Separates(gaps, ws) && Interleave(gaps, ws) == text
  {
    var ws := NonEmpty(SplitFrom(text, 0, 0));
    assert NoWhitespace(text[0..0]);
    var gaps := SplitDecomposes(text, 0, 0);
    assert text[0..] == text;
    assert Separates(gaps, ws) && Interleave(gaps, ws) == text;
  }

  /** A text with no words is whitespace, and only then. */
  lemma {:induction false} InterleaveAllWhitespace(gaps: seq<string>, words: seq<string>)
    requires Separates(gaps, words)
    ensures AllWhitespace(Interleave(gaps, words)) <==> |words| == 0
  {
    if |words| > 0 {
      var s := Interleave(gaps, words);
      assert s[|gaps[0]|] == words[0][0];
    }
  }

  /** `wordCount` is 0 exactly for an all-whitespace text. */
  lemma WordCountZeroIffBlank(text: string)
    ensures |Words(text)| == 0 <==> AllWhitespace(text)
  {
    var gaps :| Separates(gaps, Words(text)) && Interleave(gaps, Words(text)) == text;
    InterleaveAllWhitespace(gaps, Words(text));
  }

  // ---------------------------------------------------------------------
  // generateDraft
  // ---------------------------------------------------------------------

  const EMPTY_TITLE_ERROR: string := "Angle title cannot be empty"

  /** `generateDraft(angle, research)` with `text` the model's reply: a
      blank title fails before the call; otherwise the draft carries the
      text verbatim, the heading's title or else the angle's, and the
      number of words. */
  function GenerateDraft(angleTitle: string, text: string): (r: Result<DraftResult>)
    ensures r.Err? <==> AllWhitespace(angleTitle)
    ensures r.Err? ==> r.message == EMPTY_TITLE_ERROR
    ensures r.Ok? ==> r.value.content == text
    ensures r.Ok? ==> r.value.title == HeadingTitle(text).GetOr(angleTitle)
    ensures r.Ok? ==> r.value.wordCount == |Words(text)|
  {
    if angleTitle == "" || Trim(angleTitle) == "" then Err(EMPTY_TITLE_ERROR)
    else
      var title := match HeadingTitle(text) case Some(t) => t case None => angleTitle;
      Ok(DraftResult(title, text, |Words(text)|))
  }

  /** The title of a draft is never blank: it is a heading's non-empty
      capture or the angle's title, which passed the guard. */
  lemma DraftTitleNeverEmpty(angleTitle: string, text: string)
    requires GenerateDraft(angleTitle, text).Ok?
    ensures |GenerateDraft(angleTitle, text).value.title| > 0
  {
  }
}
