/** `sanitizeInput`, `sanitizeMarkdown` and `truncate`.

    Each `.replace(/.../g, '')` is one left-to-right pass that deletes every
    leftmost, non-overlapping match of its pattern and resumes after it. The
    four patterns are modelled by the length of the match they make at the
    start of a string (0 for none). */
module Sanitize {
  import opened Strings

  /** `/[<>]/g`, `/javascript:/gi`, `/on\w+=/gi`, `/<script[^>]*>.*?<\/script>/gi`. */
  datatype Pattern = AngleBracket | JavascriptScheme | EventHandler | ScriptElement

  /** Index of the first character at or after `i` that is not in `\w`. */
  function WordRunEnd(s: string, i: nat): (j: nat)
    requires i <= |s|
    ensures i <= j <= |s|
    ensures forall k :: i <= k < j ==> IsWordChar(s[k])
    ensures j == |s| || !IsWordChar(s[j])
    decreases |s| - i
  {
    if i < |s| && IsWordChar(s[i]) then WordRunEnd(s, i + 1) else i
  }

  /** Index of the first `>` at or after `i`, or `|s|`: what `[^>]*` must
      consume before the `>` (a shorter run would leave a non-`>` next). */
  function GreaterThanIndex(s: string, i: nat): (j: nat)
    requires i <= |s|
    ensures i <= j <= |s|
    ensures forall k :: i <= k < j ==> s[k] != '>'
    ensures j < |s| ==> s[j] == '>'
    decreases |s| - i
  {
    if i == |s| || s[i] == '>' then i else GreaterThanIndex(s, i + 1)
  }

  /** `.*?<\/script>` matched from `t` ends at `e`: the closing tag sits
      just before `e`, and no character before it is a line terminator
      (which `.` refuses) or the start of an earlier closing tag (which the
      lazy `.*?` would have stopped at). */
  predicate LazyCloseAt(s: string, t: int, e: int) {
    && 0 <= t && t + 9 <= e <= |s|
    && MatchesAt(s, e - 9, "</script>")
    && forall k :: t <= k < e - 9 ==> !IsLineTerminator(s[k]) && !MatchesAt(s, k, "</script>")
  }

  /** No closing tag can be reached from `t` without crossing a line
      terminator. */
  predicate NoCloseFrom(s: string, t: int) {
    forall u :: 0 <= t <= u <= |s| && MatchesAt(s, u, "</script>") ==>
      exists k :: t <= k < u && IsLineTerminator(s[k])
  }

  /** End of `.*?<\/script>` matched from `t`; 0 when there is none. */
  function ClosingTagEnd(s: string, t: nat): (e: nat)
    requires t <= |s|
    ensures e > 0 ==> LazyCloseAt(s, t, e)
    ensures e == 0 ==> NoCloseFrom(s, t)
    decreases |s| - t
  {
    if MatchesAt(s, t, "</script>") then t + 9
    else if t < |s| && !IsLineTerminator(s[t]) then
      var e := ClosingTagEnd(s, t + 1);
      LazyCloseStep(s, t, e);
      e
    else
      NoCloseStop(s, t);
      0
  }

  lemma LazyCloseStep(s: string, t: nat, e: nat)
    requires t < |s| && !IsLineTerminator(s[t]) && !MatchesAt(s, t, "</script>")
    ensures e > 0 && LazyCloseAt(s, t + 1, e) ==> LazyCloseAt(s, t, e)
    ensures NoCloseFrom(s, t + 1) ==> NoCloseFrom(s, t)
  {
  }

  lemma NoCloseStop(s: string, t: nat)
    requires t <= |s| && !MatchesAt(s, t, "</script>")
    requires t == |s| || IsLineTerminator(s[t])
    ensures NoCloseFrom(s, t)
  {
    forall u | t <= u <= |s| && MatchesAt(s, u, "</script>")
      ensures exists k :: t <= k < u && IsLineTerminator(s[k])
    {
      assert t < u;
      assert IsLineTerminator(s[t]);
    }
  }

  /** `on\w+=` matches `s[..m]`: the backtracking `\w+` can only stop where
      an `=` follows, and `=` is not a word character, so there is at most
      one such `m`. */
  predicate EventHandlerMatch(s: string, m: int) {
    && 4 <= m <= |s|
    && MatchesAt(s, 0, "on")
    && (forall k :: 2 <= k < m - 1 ==> IsWordChar(s[k]))
    && s[m - 1] == '='
  }

  /** `<script[^>]*>.*?<\/script>` can match `s[..e]` with its first `>` at
      `g`; the match the lazy `.*?` makes is the one with the least `e`. */
  ghost predicate ScriptMatch(s: string, g: int, e: int) {
    && 7 <= g && g + 10 <= e <= |s|
    && MatchesAt(s, 0, "<script")
    && (forall k :: 7 <= k < g ==> s[k] != '>') && s[g] == '>'
    && (forall k :: g + 1 <= k < e - 9 ==> !IsLineTerminator(s[k]))
    && MatchesAt(s, e - 9, "</script>")
  }

  /** Length of the match of `p` at the very start of `s`; 0 when `p` does
      not match there. */
  function MatchLength(p: Pattern, s: string): (n: nat)
    ensures n <= |s|
    ensures p == AngleBracket ==>
      n <= 1 && (n == 1 <==> |s| > 0 && (s[0] == '<' || s[0] == '>'))
    ensures p == JavascriptScheme ==>
      (n == 0 || n == 11) && (n == 11 <==> MatchesAt(s, 0, "javascript:"))
    ensures p == EventHandler && n > 0 ==> EventHandlerMatch(s, n)
    ensures p == EventHandler ==> forall m :: EventHandlerMatch(s, m) ==> n == m
    ensures p == ScriptElement ==> (n > 0 <==> exists g, e :: ScriptMatch(s, g, e))
    ensures p == ScriptElement && n > 0 ==>
      (exists g :: ScriptMatch(s, g, n)) && forall g, e :: ScriptMatch(s, g, e) ==> n <= e
  {
    match p
    case AngleBracket =>
      if |s| > 0 && (s[0] == '<' || s[0] == '>') then 1 else 0
    case JavascriptScheme =>
      if MatchesAt(s, 0, "javascript:") then 11 else 0
    case EventHandler =>
      EventHandlerRun(s);
      if MatchesAt(s, 0, "on") then
        var j := WordRunEnd(s, 2);
        if j > 2 && j < |s| && s[j] == '=' then j + 1 else 0
      else 0
    case ScriptElement =>
      if MatchesAt(s, 0, "<script") then
        ScriptMatchIsLazy(s);
        var g := GreaterThanIndex(s, 7);
        if g < |s| then ClosingTagEnd(s, g + 1) else 0
      else 0
  }

  /** Any match of `on\w+=` ends just past the word run after `on`. */
  lemma EventHandlerRun(s: string)
    ensures forall m :: EventHandlerMatch(s, m) ==> m - 1 == WordRunEnd(s, 2)
  {
    forall m | EventHandlerMatch(s, m) ensures m - 1 == WordRunEnd(s, 2) {
      EventHandlerRunEnd(s, m);
    }
  }

  lemma EventHandlerRunEnd(s: string, m: int)
    requires EventHandlerMatch(s, m)
    ensures m - 1 == WordRunEnd(s, 2)
  {
    var j := WordRunEnd(s, 2);
    assert !IsWordChar(s[m - 1]);
    assert j <= m - 1;
  }

  /** The first `>` after `<script` and the first reachable closing tag
      give the least match of the script pattern, and no match exists when
      either is missing. */
  lemma ScriptMatchIsLazy(s: string)
    requires MatchesAt(s, 0, "<script")
    ensures var g := GreaterThanIndex(s, 7);
      var e := if g < |s| then ClosingTagEnd(s, g + 1) else 0;
      && (e > 0 <==> exists g', e' :: ScriptMatch(s, g', e'))
      && (e > 0 ==> ScriptMatch(s, g, e) && forall g', e' :: ScriptMatch(s, g', e') ==> e <= e')
  {
    var g := GreaterThanIndex(s, 7);
    var e := if g < |s| then ClosingTagEnd(s, g + 1) else 0;
    forall g', e' | ScriptMatch(s, g', e') ensures g' == g && g < |s| && 0 < e <= e' {
      ScriptMatchOpensAtFirstGreater(s, g', e');
      ScriptMatchClosesLazily(s, g', e');
    }
    if e > 0 {
      assert ScriptMatch(s, g, e);
    }
  }

  /** The opening tag of a script match ends at the first `>`. */
  lemma ScriptMatchOpensAtFirstGreater(s: string, g: int, e: int)
    requires ScriptMatch(s, g, e)
    ensures g == GreaterThanIndex(s, 7)
  {
    assert s[g] == '>';
  }

  /** A script match ends no earlier than the first reachable closing tag. */
  lemma ScriptMatchClosesLazily(s: string, g: int, e: int)
    requires ScriptMatch(s, g, e)
    ensures 0 < ClosingTagEnd(s, g + 1) <= e
  {
    assert MatchesAt(s, e - 9, "</script>");
  }

  /** `s.replace(p, '')` with the global flag: matches are taken left to
      right and never overlap, and the characters between them are kept.
      The result only ever deletes characters of `s`. */
  function RemoveAll(s: string, p: Pattern): (r: string)
    ensures IsSubsequence(r, s) && |r| <= |s|
    decreases |s|
  {
    if |s| == 0 then []
    else
      var n := MatchLength(p, s);
      if n > 0 then
        var r := RemoveAll(s[n..], p);
        SubsequenceDropPrefix(r, s, n);
        r
      else
        var t := RemoveAll(s[1..], p);
        SubsequenceCons(s[0], t, s[1..]);
        assert [s[0]] + s[1..] == s;
        [s[0]] + t
  }

  /** `p` matches nowhere in `s`. */
  predicate FreeOf(s: string, p: Pattern) {
    forall i :: 0 <= i < |s| ==> MatchLength(p, s[i..]) == 0
  }

  /** `sanitizeInput`: strip angle brackets, then `javascript:` in any letter
      case, then `on<word>=`, then trim. The result only deletes characters
      of the input, holds no angle bracket and has no surrounding
      whitespace. */
  function SanitizeInput(s: string): (r: string)
    ensures IsSubsequence(r, s) && |r| <= |s|
    ensures '<' !in r && '>' !in r
    ensures NoOuterWhitespace(r)
  {
    var a := RemoveAll(s, AngleBracket);
    var j := RemoveAll(a, JavascriptScheme);
    var h := RemoveAll(j, EventHandler);
    NoAngleBracketsAfterRemoval(s);
    TrimIsSubsequence(h);
    SubsequenceTransitive(h, j, a);
    SubsequenceTransitive(Trim(h), h, a);
    SubsequenceTransitive(Trim(h), a, s);
    SubsequenceLength(Trim(h), s);
    SubsequenceOmits(Trim(h), a, '<');
    SubsequenceOmits(Trim(h), a, '>');
    Trim(h)
  }

  /** `sanitizeMarkdown`: the same passes with `<script>` elements removed
      first instead of angle brackets, so markdown keeps its `>` quotes. */
  function SanitizeMarkdown(s: string): (r: string)
    ensures IsSubsequence(r, s) && |r| <= |s|
    ensures NoOuterWhitespace(r)
  {
    var a := RemoveAll(s, ScriptElement);
    var j := RemoveAll(a, JavascriptScheme);
    var h := RemoveAll(j, EventHandler);
    TrimIsSubsequence(h);
    SubsequenceTransitive(j, a, s);
    SubsequenceTransitive(h, j, s);
    SubsequenceTransitive(Trim(h), h, s);
    SubsequenceLength(Trim(h), s);
    Trim(h)
  }

  /** `truncate`: `substring` clamps a negative end to 0. */
  function Truncate(s: string, maxLength: int): (r: string)
    ensures |s| <= maxLength ==> r == s
    ensures |s| > maxLength ==> 3 <= |r| <= |s| + 3 && r[|r| - 3..] == "..." && r[..|r| - 3] == s[..|r| - 3]
    ensures |s| > maxLength && maxLength >= 3 ==> |r| == maxLength
    ensures |s| > maxLength && maxLength < 3 ==> r == "..."
  {
    if |s| <= maxLength then s
    else
      var end := if maxLength - 3 < 0 then 0 else maxLength - 3;
      s[..end] + "..."
  }

  // ---------------------------------------------------------------------
  // Properties
  // ---------------------------------------------------------------------

  /** A pass returns its input unchanged exactly when the pattern matches
      nowhere in it. */
  lemma {:induction false} RemoveAllUnchangedIffFree(s: string, p: Pattern)
    ensures RemoveAll(s, p) == s <==> FreeOf(s, p)
    decreases |s|
  {
    if |s| > 0 {
      var n := MatchLength(p, s);
      RemoveAllUnchangedIffFree(s[1..], p);
      assert FreeOf(s, p) <==> n == 0 && FreeOf(s[1..], p) by {
        forall i | 0 < i < |s| ensures s[i..] == s[1..][i - 1..] { }
        if n == 0 && FreeOf(s[1..], p) {
          forall i | 0 <= i < |s| ensures MatchLength(p, s[i..]) == 0 {
            if i > 0 { assert MatchLength(p, s[1..][i - 1..]) == 0; }
          }
        }
        if FreeOf(s, p) {
          assert s[0..] == s;
          forall i | 0 <= i < |s[1..]| ensures MatchLength(p, s[1..][i..]) == 0 {
            assert MatchLength(p, s[i + 1..]) == 0;
          }
        }
      }
      if n == 0 {
        assert RemoveAll(s, p) == [s[0]] + RemoveAll(s[1..], p);
        if RemoveAll(s, p) == s {
          assert RemoveAll(s[1..], p) == RemoveAll(s, p)[1..];
        }
      }
    }
  }

  /** After the first pass of `sanitizeInput` no angle bracket is left. */
  lemma {:induction false} NoAngleBracketsAfterRemoval(s: string)
    ensures '<' !in RemoveAll(s, AngleBracket) && '>' !in RemoveAll(s, AngleBracket)
    decreases |s|
  {
    if |s| > 0 {
      NoAngleBracketsAfterRemoval(s[1..]);
      if MatchLength(AngleBracket, s) > 0 {
        assert RemoveAll(s, AngleBracket) == RemoveAll(s[1..], AngleBracket);
      }
    }
  }

  lemma TrimIsSubsequence(s: string)
    ensures IsSubsequence(Trim(s), s)
  {
    var i := SkipWhitespace(s, 0);
    var j := TrimEndIndex(s, i, |s|);
    assert Trim(s) == s[i..j];
    SliceIsSubsequence(s, i, j);
  }

  /** A subsequence as long as the original is the original. */
  lemma {:induction false} SubsequenceSameLength(a: string, b: string)
    requires IsSubsequence(a, b) && |a| == |b|
    ensures a == b
    decreases |b|
  {
    if |a| > 0 {
      if a[0] == b[0] && IsSubsequence(a[1..], b[1..]) {
        SubsequenceSameLength(a[1..], b[1..]);
        assert a == [a[0]] + a[1..];
        assert b == [b[0]] + b[1..];
      } else {
        SubsequenceLength(a, b[1..]);
      }
    }
  }

  /** What `sanitizeInput` leaves untouched: strings with no angle bracket,
      no `javascript:` in any letter case, no `on<word>=` and no
      surrounding whitespace, and nothing else. */
  lemma SanitizeInputFixedPoints(s: string)
    ensures SanitizeInput(s) == s <==>
      FreeOf(s, AngleBracket) && FreeOf(s, JavascriptScheme) && FreeOf(s, EventHandler)
      && NoOuterWhitespace(s)
  {
    var a := RemoveAll(s, AngleBracket);
    var j := RemoveAll(a, JavascriptScheme);
    var h := RemoveAll(j, EventHandler);
    RemoveAllUnchangedIffFree(s, AngleBracket);
    RemoveAllUnchangedIffFree(a, JavascriptScheme);
    RemoveAllUnchangedIffFree(j, EventHandler);
    if SanitizeInput(s) == s {
      assert |s| <= |h|;
      SubsequenceSameLength(a, s);
      SubsequenceSameLength(j, a);
      SubsequenceSameLength(h, j);
    }
  }

  /** What `sanitizeMarkdown` leaves untouched: strings with no script
      element, no `javascript:` in any letter case, no `on<word>=` and no
      surrounding whitespace, and nothing else. Markdown syntax, angle
      brackets included, passes through. */
  lemma SanitizeMarkdownFixedPoints(s: string)
    ensures SanitizeMarkdown(s) == s <==>
      FreeOf(s, ScriptElement) && FreeOf(s, JavascriptScheme) && FreeOf(s, EventHandler)
      && NoOuterWhitespace(s)
  {
    var a := RemoveAll(s, ScriptElement);
    var j := RemoveAll(a, JavascriptScheme);
    var h := RemoveAll(j, EventHandler);
    RemoveAllUnchangedIffFree(s, ScriptElement);
    RemoveAllUnchangedIffFree(a, JavascriptScheme);
    RemoveAllUnchangedIffFree(j, EventHandler);
    if SanitizeMarkdown(s) == s {
      assert |s| <= |h|;
      SubsequenceSameLength(a, s);
      SubsequenceSameLength(j, a);
      SubsequenceSameLength(h, j);
    }
  }

  /** One removal pass can assemble a new script element out of the pieces
      around a removed one: `<scr<script></script>ipt>x</script>` loses its
      inner element and becomes `<script>x</script>`, which the pattern
      matches whole. */
  lemma ScriptRemovalReassembles(s: string, m: string, t: string)
    requires m == "<script>" + "</script>" + "ipt>x</script>"
    requires s == "<scr" + m && t == "<scr" + "ipt>x</script>"
    ensures RemoveAll(s, ScriptElement) == t
    ensures MatchLength(ScriptElement, t) == |t|
  {
    KeepPrefix(s, m);
    ElementThenTailRemoved(m);
    ScriptElementAtStart(t);
  }

  /** The first four characters of the example survive the script pass:
      the leading `<` opens no element, since `<scr` is followed by `<`. */
  lemma KeepPrefix(s: string, m: string)
    requires s == "<scr" + m && |m| > 0 && m[0] == '<'
    ensures RemoveAll(s, ScriptElement) == "<scr" + RemoveAll(m, ScriptElement)
  {
    OpensWithLessThan('<');
    ConcatAssociates(['<'], "scr", m);
    PrefixBeforeLessThanKept('<', "scr", m);
  }

  /** One character and three more without `<`, followed by a `<`: the first
      cannot open `<script`, and the other three open nothing. */
  lemma PrefixBeforeLessThanKept(c: char, b: string, m: string)
    requires |b| == 3 && (forall k :: 0 <= k < |b| ==> b[k] != '<')
    requires |m| > 0 && m[0] == '<'
    ensures RemoveAll([c] + (b + m), ScriptElement)
      == ([c] + b) + RemoveAll(m, ScriptElement)
  {
    var w := [c] + (b + m);
    assert w[4] == '<';
    LessThanBeforeLessThanKept(w);
    assert w[1..] == b + m;
    NoLessThanPrefixKept(b, m);
    ConcatAssociates([c], b, RemoveAll(m, ScriptElement));
  }

  /** A `<` whose fifth character is another `<` cannot open `<script`. */
  lemma LessThanBeforeLessThanKept(s: string)
    requires |s| > 4 && s[4] == '<'
    ensures RemoveAll(s, ScriptElement) == [s[0]] + RemoveAll(s[1..], ScriptElement)
  {
    assert !MatchesAt(s, 0, "<script") by {
      assert Lower(s[4]) != "<script"[4];
    }
    RemoveAllSkipsChar(s, ScriptElement);
  }

  /** A prefix without `<` opens no script element and is kept as it is. */
  lemma {:induction false} NoLessThanPrefixKept(p: string, r: string)
    requires forall k :: 0 <= k < |p| ==> p[k] != '<'
    ensures RemoveAll(p + r, ScriptElement) == p + RemoveAll(r, ScriptElement)
    decreases |p|
  {
    if |p| == 0 {
      assert p + r == r;
    } else {
      var w := p + r;
      var q := p[1..];
      assert w[0] == p[0] && w[1..] == q + r;
      NotOpeningSkipped(w);
      NoLessThanPrefixKept(q, r);
      var x := RemoveAll(r, ScriptElement);
      assert RemoveAll(w, ScriptElement) == [p[0]] + (q + x);
      HeadTail(p);
      ConcatAssociates([p[0]], q, x);
    }
  }

  lemma OpensWithLessThan(c: char)
    requires c == '<'
    ensures [c] + "scr" == "<scr"
  {
  }

  lemma HeadTail(p: string)
    requires |p| > 0
    ensures [p[0]] + p[1..] == p
  {
  }

  lemma ConcatAssociates(a: string, b: string, c: string)
    ensures (a + b) + c == a + (b + c)
  {
  }

  lemma ScriptElementRemoved(s: string)
    requires s == "<script>" + "</script>" + "ipt>x</script>"
    ensures RemoveAll(s, ScriptElement) == RemoveAll(s[17..], ScriptElement)
    ensures s[17..] == "ipt>x</script>"
  {
    OpeningAt(s);
    assert s[7] == '>';
    assert GreaterThanIndex(s, 7) == 7;
    assert s[8..17] == "</script>";
    ClosingAt(s, 8);
    assert ClosingTagEnd(s, 8) == 17;
    assert MatchLength(ScriptElement, s) == 17;
    RemoveAllSkipsMatch(s, ScriptElement);
  }

  lemma ScriptElementAtStart(t: string)
    requires t == "<scr" + "ipt>x</script>"
    ensures MatchLength(ScriptElement, t) == 18
  {
    assert t == "<script>x</script>";
    OpeningAt(t);
    assert t[7] == '>';
    assert GreaterThanIndex(t, 7) == 7;
    assert t[9..18] == "</script>";
    ClosingAt(t, 9);
    assert ClosingTagEnd(t, 9) == 18;
    assert !MatchesAt(t, 8, "</script>") by { assert Lower(t[8]) != "</script>"[0]; }
    assert ClosingTagEnd(t, 8) == 18;
  }

  lemma ElementThenTailRemoved(m: string)
    requires m == "<script>" + "</script>" + "ipt>x</script>"
    ensures RemoveAll(m, ScriptElement) == "ipt>x</script>"
  {
    ScriptElementRemoved(m);
    TailUntouched(m[17..]);
  }

  lemma TailUntouched(u: string)
    requires u == "ipt>x</script>"
    ensures RemoveAll(u, ScriptElement) == u
  {
    forall i | 0 <= i < |u| - 1 ensures u[i] != '<' || Lower(u[i + 1]) != 's' {
      if u[i] == '<' {
        assert i == 5;
      }
    }
    NoScriptOpeningUntouched(u);
  }

  lemma OpeningAt(s: string)
    requires |s| >= 7 && s[..7] == "<script"
    ensures MatchesAt(s, 0, "<script")
  {
    forall k | 0 <= k < 7 ensures Lower(s[k]) == "<script"[k] {
      assert s[k] == s[..7][k];
    }
  }

  lemma ClosingAt(s: string, i: nat)
    requires i + 9 <= |s| && s[i..i + 9] == "</script>"
    ensures MatchesAt(s, i, "</script>")
  {
    forall k | 0 <= k < 9 ensures Lower(s[i + k]) == "</script>"[k] {
      assert s[i + k] == s[i..i + 9][k];
    }
  }

  /** A string not starting with `<` keeps its first character. */
  lemma NotOpeningSkipped(s: string)
    requires |s| > 0 && s[0] != '<'
    ensures RemoveAll(s, ScriptElement) == [s[0]] + RemoveAll(s[1..], ScriptElement)
  {
    assert !MatchesAt(s, 0, "<script") by { assert Lower(s[0]) != "<script"[0]; }
    RemoveAllSkipsChar(s, ScriptElement);
  }

  lemma RemoveAllSkipsChar(s: string, p: Pattern)
    requires |s| > 0 && MatchLength(p, s) == 0
    ensures RemoveAll(s, p) == [s[0]] + RemoveAll(s[1..], p)
  {
  }

  lemma RemoveAllSkipsMatch(s: string, p: Pattern)
    requires MatchLength(p, s) > 0
    ensures RemoveAll(s, p) == RemoveAll(s[MatchLength(p, s)..], p)
  {
  }

  /** A string in which no `<` is followed by an `s` or `S` holds no script
      element, so the script pass leaves it untouched. */
  lemma {:induction false} NoScriptOpeningUntouched(s: string)
    requires forall i :: 0 <= i < |s| - 1 ==> s[i] != '<' || Lower(s[i + 1]) != 's'
    ensures RemoveAll(s, ScriptElement) == s
    decreases |s|
  {
    if |s| > 0 {
      assert !MatchesAt(s, 0, "<script") by {
        if |s| >= 7 {
          assert s[0] != '<' || Lower(s[1]) != 's';
          assert "<script"[0] == '<' && "<script"[1] == 's';
        }
      }
      forall i | 0 <= i < |s[1..]| - 1 ensures s[1..][i] != '<' || Lower(s[1..][i + 1]) != 's' {
        assert s[1..][i] == s[i + 1] && s[1..][i + 1] == s[i + 2];
      }
      NoScriptOpeningUntouched(s[1..]);
      RemoveAllSkipsChar(s, ScriptElement);
      assert [s[0]] + s[1..] == s;
    }
  }

  /** With a limit under three, a truncated string is longer than the limit. */
  lemma TruncateBelowThreeExceedsLimit()
    ensures Truncate("abcd", 2) == "..." && |Truncate("abcd", 2)| > 2
  {
  }
}
