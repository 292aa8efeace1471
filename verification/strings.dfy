/** The JavaScript string primitives the studio code leans on: the
    whitespace set shared by `String.prototype.trim` and the regular
    expression class `\s`, ASCII case folding as used by the `i` flag,
    the decimal rendering of integers in template literals, and the
    "only deletes characters" relation between two strings. */
module Strings {

  /** ECMAScript LineTerminator: LF, CR, LINE SEPARATOR, PARAGRAPH SEPARATOR.
      These are the characters `.` in a regular expression does not match. */
  predicate IsLineTerminator(c: char) {
    c == '\n' || c == '\r' || c == '\U{2028}' || c == '\U{2029}'
  }

  /** ECMAScript WhiteSpace plus LineTerminator: what `trim()` removes and
      what `\s` matches (TAB, VT, FF, SPACE, NBSP, ZWNBSP, the Zs category). */
  predicate IsWhitespace(c: char) {
    || IsLineTerminator(c)
    || c == '\t' || c == '\U{000B}' || c == '\U{000C}' || c == ' '
    || c == '\U{00A0}' || c == '\U{FEFF}' || c == '\U{1680}'
    || ('\U{2000}' <= c <= '\U{200A}')
    || c == '\U{202F}' || c == '\U{205F}' || c == '\U{3000}'
  }

  predicate AllWhitespace(s: string) {
    forall k :: 0 <= k < |s| ==> IsWhitespace(s[k])
  }

  /** Neither the first nor the last character is whitespace. */
  predicate NoOuterWhitespace(s: string) {
    |s| == 0 || (!IsWhitespace(s[0]) && !IsWhitespace(s[|s| - 1]))
  }

  /** Index of the first non-whitespace character at or after `i`. */
  function SkipWhitespace(s: string, i: nat): (j: nat)
    requires i <= |s|
    ensures i <= j <= |s|
    ensures forall k :: i <= k < j ==> IsWhitespace(s[k])
    ensures j == |s| || !IsWhitespace(s[j])
    decreases |s| - i
  {
    if i < |s| && IsWhitespace(s[i]) then SkipWhitespace(s, i + 1) else i
  }

  /** Index just past the last non-whitespace character in `s[lo..hi]`. */
  function TrimEndIndex(s: string, lo: nat, hi: nat): (j: nat)
    requires lo <= hi <= |s|
    ensures lo <= j <= hi
    ensures forall k :: j <= k < hi ==> IsWhitespace(s[k])
    ensures j == lo || !IsWhitespace(s[j - 1])
    decreases hi - lo
  {
    if lo < hi && IsWhitespace(s[hi - 1]) then TrimEndIndex(s, lo, hi - 1) else hi
  }

  /** `String.prototype.trim`: the slice that remains once the leading and
      the trailing whitespace are removed. */
  function Trim(s: string): (r: string)
    ensures |r| <= |s|
    ensures NoOuterWhitespace(r)
    ensures |r| == 0 <==> AllWhitespace(s)
    ensures NoOuterWhitespace(s) ==> r == s
    ensures exists i :: (0 <= i <= |s| - |r| && r == s[i..i + |r|]
                         && AllWhitespace(s[..i]) && AllWhitespace(s[i + |r|..]))
  {
    var i := SkipWhitespace(s, 0);
    var j := TrimEndIndex(s, i, |s|);
    var r := s[i..j];
    assert AllWhitespace(s[..i]) && AllWhitespace(s[j..]);
    assert |r| == 0 ==> AllWhitespace(s) by {
      if i == j {
        assert i == |s|;
        assert s[..i] == s;
      }
    }
    assert NoOuterWhitespace(s) ==> i == 0 && j == |s|;
    assert j == i + |r| && r == s[i..i + |r|];
    r
  }

  /** Trimming keeps every span that starts and ends on a non-whitespace
      character: the trimmed string is `s[i..j]` around it. */
  lemma TrimKeepsSpan(s: string, m: nat, n: nat) returns (i: nat, j: nat)
    requires m < n <= |s| && !IsWhitespace(s[m]) && !IsWhitespace(s[n - 1])
    ensures i <= m && n <= j <= |s| && Trim(s) == s[i..j]
  {
    i := SkipWhitespace(s, 0);
    j := TrimEndIndex(s, i, |s|);
  }

  /** ASCII lower-casing. Without the `u` flag a case-insensitive JavaScript
      regular expression never folds a non-ASCII character onto an ASCII one,
      so for the ASCII patterns of this code base matching "ignoring case"
      is exactly comparing `Lower` of the subject with a lower-case pattern. */
  function Lower(c: char): (r: char)
    ensures 'A' <= c <= 'Z' ==> 'a' <= r <= 'z' && r as int - c as int == 32
    ensures !('A' <= c <= 'Z') ==> r == c
  {
    if 'A' <= c <= 'Z' then (c as int + 32) as char else c
  }

  /** The lower-case ASCII pattern `w` occurs at position `i` of `s`,
      ignoring case. */
  predicate MatchesAt(s: string, i: nat, w: string) {
    i + |w| <= |s| && forall k :: 0 <= k < |w| ==> Lower(s[i + k]) == w[k]
  }

  /** The regular-expression class `\w`: `[A-Za-z0-9_]`. */
  predicate IsWordChar(c: char) {
    ('a' <= c <= 'z') || ('A' <= c <= 'Z') || ('0' <= c <= '9') || c == '_'
  }

  // ---------------------------------------------------------------------
  // Decimal rendering of integers (`${n}` in a template literal)
  // ---------------------------------------------------------------------

  predicate IsDigit(c: char) {
    '0' <= c <= '9'
  }

  function DigitChar(d: nat): (c: char)
    requires d < 10
    ensures IsDigit(c) && c as int - '0' as int == d
  {
    ('0' as int + d) as char
  }

  /** The decimal digits of `n`, most significant first, without leading zeros. */
  function NatToString(n: nat): (r: string)
    ensures 1 <= |r|
    ensures forall k :: 0 <= k < |r| ==> IsDigit(r[k])
    ensures |r| > 1 ==> r[0] != '0'
    decreases n
  {
    if n < 10 then [DigitChar(n)] else NatToString(n / 10) + [DigitChar(n % 10)]
  }

  /** How JavaScript renders an integer-valued number: an optional `-` and
      the digits of its magnitude. */
  function IntToString(n: int): (r: string)
    ensures n >= 0 ==> r == NatToString(n)
    ensures n < 0 ==> r == "-" + NatToString(-n)
  {
    if n >= 0 then NatToString(n) else "-" + NatToString(-n)
  }

  /** The value of a string of decimal digits (reference decoder). */
  function DigitsValue(s: string): int
    requires forall k :: 0 <= k < |s| ==> IsDigit(s[k])
  {
    if |s| == 0 then 0
    else DigitsValue(s[..|s| - 1]) * 10 + (s[|s| - 1] as int - '0' as int)
  }

  /** Rendering a natural number and reading the digits back gives the number. */
  lemma {:induction false} NatToStringRoundTrip(n: nat)
    ensures DigitsValue(NatToString(n)) == n
    decreases n
  {
    var r := NatToString(n);
    if n >= 10 {
      NatToStringRoundTrip(n / 10);
      assert r[..|r| - 1] == NatToString(n / 10);
    }
  }

  /** Distinct numbers render to distinct strings. */
  lemma NatToStringInjective(m: nat, n: nat)
    requires NatToString(m) == NatToString(n)
    ensures m == n
  {
    NatToStringRoundTrip(m);
    NatToStringRoundTrip(n);
  }

  // ---------------------------------------------------------------------
  // Deletion-only transformations
  // ---------------------------------------------------------------------

  /** `a` is obtained from `b` by deleting characters (order kept). */
  predicate IsSubsequence(a: string, b: string)
    decreases |b|
  {
    if |a| == 0 then true
    else if |b| == 0 then false
    else (a[0] == b[0] && IsSubsequence(a[1..], b[1..])) || IsSubsequence(a, b[1..])
  }

  lemma {:induction false} SubsequenceLength(a: string, b: string)
    requires IsSubsequence(a, b)
    ensures |a| <= |b|
    decreases |b|
  {
    if |a| > 0 {
      if a[0] == b[0] && IsSubsequence(a[1..], b[1..]) {
        SubsequenceLength(a[1..], b[1..]);
      } else {
        SubsequenceLength(a, b[1..]);
      }
    }
  }

  /** Every character of a subsequence occurs in the original string. */
  lemma {:induction false} SubsequenceChars(a: string, b: string, c: char)
    requires IsSubsequence(a, b)
    requires c in a
    ensures c in b
    decreases |b|
  {
    if a[0] == b[0] && IsSubsequence(a[1..], b[1..]) {
      if c != a[0] {
        assert c in a[1..] by {
          var k :| 0 <= k < |a| && a[k] == c;
          assert a[1..][k - 1] == c;
        }
        SubsequenceChars(a[1..], b[1..], c);
        assert c in b[1..];
      }
    } else {
      SubsequenceChars(a, b[1..], c);
      assert c in b[1..];
    }
  }

  /** A character missing from the original is missing from every
      subsequence of it. */
  lemma SubsequenceOmits(a: string, b: string, c: char)
    requires IsSubsequence(a, b)
    ensures c !in b ==> c !in a
  {
    if c in a { SubsequenceChars(a, b, c); }
  }

  lemma {:induction false} SubsequenceReflexive(s: string)
    ensures IsSubsequence(s, s)
    decreases |s|
  {
    if |s| > 0 {
      SubsequenceReflexive(s[1..]);
    }
  }

  lemma {:induction false} SubsequenceTransitive(a: string, b: string, c: string)
    requires IsSubsequence(a, b) && IsSubsequence(b, c)
    ensures IsSubsequence(a, c)
    decreases |c|
  {
    if |a| > 0 {
      if IsSubsequence(b, c[1..]) {
        SubsequenceTransitive(a, b, c[1..]);
      } else if a[0] == b[0] && IsSubsequence(a[1..], b[1..]) {
        SubsequenceTransitive(a[1..], b[1..], c[1..]);
      } else {
        SubsequenceTransitive(a, b[1..], c[1..]);
      }
    }
  }

  /** Keeping the first character of both strings keeps the relation. */
  lemma SubsequenceCons(c: char, a: string, b: string)
    requires IsSubsequence(a, b)
    ensures IsSubsequence([c] + a, [c] + b)
  {
    assert ([c] + a)[1..] == a;
    assert ([c] + b)[1..] == b;
  }

  /** Deleting a prefix of the original keeps the relation. */
  lemma {:induction false} SubsequenceDropPrefix(a: string, b: string, n: nat)
    requires n <= |b|
    requires IsSubsequence(a, b[n..])
    ensures IsSubsequence(a, b)
    decreases n
  {
    if n > 0 {
      assert b[n..] == b[1..][n - 1..];
      SubsequenceDropPrefix(a, b[1..], n - 1);
      if |a| > 0 {
        assert IsSubsequence(a, b[1..]);
      }
    }
  }

  /** Any slice of a string is a subsequence of it. */
  lemma SliceIsSubsequence(s: string, i: nat, j: nat)
    requires i <= j <= |s|
    ensures IsSubsequence(s[i..j], s)
  {
    PrefixIsSubsequence(s[i..], j - i);
    assert s[i..][..j - i] == s[i..j];
    SubsequenceDropPrefix(s[i..j], s, i);
  }

  lemma {:induction false} PrefixIsSubsequence(s: string, n: nat)
    requires n <= |s|
    ensures IsSubsequence(s[..n], s)
    decreases |s|
  {
    if n > 0 {
      PrefixIsSubsequence(s[1..], n - 1);
      assert s[..n][1..] == s[1..][..n - 1];
    }
  }
}
