/** The three regular expressions the service applies to the payload, stated
    as what `java.util.regex` makes them mean:
    `s.matches(".*\\s+.*")`, `s.replaceAll("\\s+", "")` and a full match of
    `^[A-Za-z0-9+/]*={0,2}$`. */
module JavaRegex {
  import opened JavaLang

  /** `\s` without UNICODE_CHARACTER_CLASS: `[ \t\n\x0B\f\r]`. */
  predicate IsRegexSpace(c: char) {
    c == ' ' || c == '\t' || c == '\n' || c == '\U{000B}' || c == '\U{000C}' || c == '\r'
  }

  /** The characters `.` refuses to match unless DOTALL is set. */
  predicate IsLineTerminator(c: char) {
    c == '\n' || c == '\r' || c == '\U{0085}' || c == '\U{2028}' || c == '\U{2029}'
  }

  /** `s` splits as `s[..i]`, a non-empty run `s[i..j]` of `\s` characters and
      `s[j..]`, where neither outer part contains a line terminator. */
  predicate SplitsAtSpaceRun(s: string, i: int, j: int) {
    && 0 <= i < j <= |s|
    && (forall k | 0 <= k < i :: !IsLineTerminator(s[k]))
    && (forall k | i <= k < j :: IsRegexSpace(s[k]))
    && (forall k | j <= k < |s| :: !IsLineTerminator(s[k]))
  }

  /** `s.matches(".*\\s+.*")`: the whole string splits into a prefix `.*`, a
      non-empty run of `\s` and a suffix `.*`, where neither `.*` may contain a
      line terminator. */
  predicate MatchesSpaceRun(s: string) {
    exists i, j | 0 <= i < j <= |s| :: SplitsAtSpaceRun(s, i, j)
  }

  /** `s` holds at least one `\s` character, which is what the guard
      `s.matches(".*\\s+.*")` is evidently meant to test. */
  predicate HasRegexSpace(s: string) {
    exists k | 0 <= k < |s| :: IsRegexSpace(s[k])
  }

  /** `s.replaceAll("\\s+", "")`: every `\s` character removed, the rest kept in order. */
  function StripSpaces(s: string): (r: string)
    ensures |r| <= |s|
    ensures forall k :: 0 <= k < |r| ==> !IsRegexSpace(r[k])
  {
    if s == [] then []
    else StripSpaces(s[..|s| - 1]) + (if IsRegexSpace(s[|s| - 1]) then [] else [s[|s| - 1]])
  }

  /** The alphabet of section 4 of RFC 4648, as the class `[A-Za-z0-9+/]`. */
  predicate IsBase64Char(c: char) {
    'A' <= c <= 'Z' || 'a' <= c <= 'z' || '0' <= c <= '9' || c == '+' || c == '/'
  }

  /** `BASE64_PATTERN.matcher(s).matches()` for `^[A-Za-z0-9+/]*={0,2}$`: the whole
      string is alphabet characters followed by at most two `=`. No check is made
      that the length is a multiple of four. */
  predicate MatchesBase64Pattern(s: string) {
    exists n | 0 <= n <= |s| :: SplitsAtPadding(s, n)
  }

  /** `s[..n]` matches `[A-Za-z0-9+/]*` and `s[n..]` matches `={0,2}`. */
  predicate SplitsAtPadding(s: string, n: int) {
    && 0 <= n <= |s|
    && (forall k | 0 <= k < n :: IsBase64Char(s[k]))
    && |s| - n <= 2
    && (forall k | n <= k < |s| :: s[k] == '=')
  }

  // ---------------------------------------------------------------------------
  // Properties of the whitespace guard and of stripping

  /** Removing whitespace distributes over concatenation. */
  lemma {:induction false} StripSpacesAppend(a: string, b: string)
    ensures StripSpaces(a + b) == StripSpaces(a) + StripSpaces(b)
    decreases |b|
  {
    if b == [] {
      assert a + b == a;
    } else {
      var b' := b[..|b| - 1];
      assert (a + b)[..|a + b| - 1] == a + b';
      StripSpacesAppend(a, b');
    }
  }

  /** Stripping one more character keeps it unless it is whitespace. */
  lemma StripSpacesSnoc(s: string, c: char)
    ensures StripSpaces(s + [c]) == StripSpaces(s) + (if IsRegexSpace(c) then [] else [c])
  {
    assert (s + [c])[..|s|] == s;
  }

  /** A string without whitespace is left as it is. */
  lemma {:induction false} StripSpacesKeeps(s: string)
    ensures !HasRegexSpace(s) ==> StripSpaces(s) == s
    decreases |s|
  {
    if s != [] {
      var s' := s[..|s| - 1];
      StripSpacesKeeps(s');
      assert !HasRegexSpace(s) ==> !HasRegexSpace(s') by {
        if HasRegexSpace(s') {
          var k :| 0 <= k < |s'| && IsRegexSpace(s'[k]);
          assert s[k] == s'[k];
        }
      }
    }
  }

  /** A character that is not whitespace survives stripping. */
  lemma {:induction false} StripSpacesKeepsChar(s: string, k: nat)
    requires k < |s| && !IsRegexSpace(s[k])
    ensures s[k] in StripSpaces(s)
    decreases |s|
  {
    if k < |s| - 1 {
      var s' := s[..|s| - 1];
      assert s[k] == s'[k];
      StripSpacesKeepsChar(s', k);
    }
  }

  /** Stripping a string of blank characters leaves blank characters only. */
  lemma {:induction false} StripSpacesOfTrimmable(s: string)
    requires AllTrimmable(s)
    ensures AllTrimmable(StripSpaces(s))
    decreases |s|
  {
    if s != [] {
      StripSpacesOfTrimmable(s[..|s| - 1]);
    }
  }

  /** Removing whitespace twice is removing it once. */
  lemma StripSpacesIdempotent(s: string)
    ensures StripSpaces(StripSpaces(s)) == StripSpaces(s)
  {
    StripSpacesKeeps(StripSpaces(s));
  }

  /** Every `\s` character is at most U+0020, so a payload that is not blank
      (per `String.trim()`) still has a character after all whitespace is removed. */
  lemma NonBlankSurvivesStripping(s: string)
    requires !IsBlank(s)
    ensures |StripSpaces(s)| > 0
  {
    BlankIff(s);
    var k :| 0 <= k < |s| && !IsTrimmable(s[k]);
    StripSpacesKeepsChar(s, k);
  }

  /** Removing whitespace never turns a blank string into a non-blank one or
      the other way round. */
  lemma StripSpacesKeepsBlankness(s: string)
    ensures IsBlank(StripSpaces(s)) <==> IsBlank(s)
  {
    StripSpacesKeepsTrimmable(s);
    BlankIff(s);
    BlankIff(StripSpaces(s));
  }

  lemma StripSpacesKeepsTrimmable(s: string)
    ensures AllTrimmable(StripSpaces(s)) <==> AllTrimmable(s)
  {
    if !AllTrimmable(s) {
      var k :| 0 <= k < |s| && !IsTrimmable(s[k]);
      StripSpacesKeepsChar(s, k);
    } else {
      StripSpacesOfTrimmable(s);
    }
  }

  /** The guard as written only fires when the string holds whitespace ... */
  lemma SpaceRunHasSpace(s: string)
    ensures MatchesSpaceRun(s) ==> HasRegexSpace(s)
  {
    if MatchesSpaceRun(s) {
      var i, j :| SplitsAtSpaceRun(s, i, j);
      assert SplitsAtSpaceRun(s, i, j);
      assert IsRegexSpace(s[i]);
    }
  }

  /** ... and agrees with "holds whitespace" on any string without a line terminator. */
  lemma SpaceRunWithoutLineBreaks(s: string)
    requires forall k :: 0 <= k < |s| ==> !IsLineTerminator(s[k])
    ensures MatchesSpaceRun(s) <==> HasRegexSpace(s)
  {
    SpaceRunHasSpace(s);
    if HasRegexSpace(s) {
      var k :| 0 <= k < |s| && IsRegexSpace(s[k]);
      assert SplitsAtSpaceRun(s, k, k + 1);
    }
  }

  /** Two line terminators with a non-whitespace character between them defeat
      the guard: neither `.*` can reach across a line terminator and `\s+` cannot
      cover the character in the middle. */
  lemma SeparatedLineBreaksDefeatGuard(s: string, a: nat, m: nat, b: nat)
    requires a < m < b < |s|
    requires IsLineTerminator(s[a]) && IsLineTerminator(s[b]) && !IsRegexSpace(s[m])
    ensures !MatchesSpaceRun(s)
  {
    forall i, j ensures !SplitsAtSpaceRun(s, i, j) {
      if 0 <= i < j <= |s| {
        if a < i {
          assert IsLineTerminator(s[a]);
        } else if j <= b {
          assert IsLineTerminator(s[b]);
        } else {
          assert i <= m < j && !IsRegexSpace(s[m]);
        }
      }
    }
  }

  // ---------------------------------------------------------------------------
  // Properties of the base64 shape check

  /** The shape accepted by `^[A-Za-z0-9+/]*={0,2}$`, stated character by
      character: every character is from the alphabet or `=`, nothing but `=`
      follows an `=`, and an `=` stands only in the last two positions. */
  predicate Base64Shaped(s: string) {
    && (forall k | 0 <= k < |s| :: IsBase64Char(s[k]) || s[k] == '=')
    && (forall k, m | 0 <= k < m < |s| && s[k] == '=' :: s[m] == '=')
    && (forall k | 0 <= k < |s| && s[k] == '=' :: k >= |s| - 2)
  }

  lemma Base64PatternIff(s: string)
    ensures MatchesBase64Pattern(s) <==> Base64Shaped(s)
  {
    if MatchesBase64Pattern(s) {
      var n :| SplitsAtPadding(s, n);
      assert SplitsAtPadding(s, n);
      assert forall k | 0 <= k < |s| && s[k] == '=' :: k >= n;
    }
    if Base64Shaped(s) {
      var n := FirstPad(s);
      assert SplitsAtPadding(s, n) by {
        assert forall k | 0 <= k < n :: s[k] != '=';
        if n < |s| {
          assert s[n] == '=';
        }
      }
    }
  }

  /** Whitespace is outside the base64 alphabet, so a string that still holds
      any cannot match the pattern. */
  lemma SpaceDefeatsBase64Pattern(s: string)
    ensures HasRegexSpace(s) ==> !MatchesBase64Pattern(s)
  {
    if HasRegexSpace(s) {
      var k :| 0 <= k < |s| && IsRegexSpace(s[k]);
      Base64PatternIff(s);
      assert !(IsBase64Char(s[k]) || s[k] == '=');
    }
  }

  /** A character that is neither whitespace, nor in the alphabet, nor `=`
      survives stripping and so spoils the base64 shape. */
  lemma ForeignCharDefeatsShape(s: string, k: nat)
    requires k < |s| && !IsRegexSpace(s[k]) && !IsBase64Char(s[k]) && s[k] != '='
    ensures !Base64Shaped(StripSpaces(s))
  {
    StripSpacesKeepsChar(s, k);
    var r := StripSpaces(s);
    var j :| 0 <= j < |r| && r[j] == s[k];
    assert !(IsBase64Char(r[j]) || r[j] == '=');
  }

  /** The index of the first `=` in `s`, or `|s|` if there is none. */
  function FirstPad(s: string): (n: nat)
    ensures n <= |s|
    ensures forall k :: 0 <= k < n ==> s[k] != '='
    ensures n < |s| ==> s[n] == '='
  {
    if s == [] then 0
    else if s[0] == '=' then 0
    else 1 + FirstPad(s[1..])
  }
}
