/** The version search as the tool writes it: the current version is pasted
    into a regular expression without escaping. The text of a semantic
    version consists of letters, digits, `-`, `.` and `+`; of those, `.`
    matches any character but a line terminator and `+` repeats the
    character before it one or more times, and the rest match themselves.

    This reading is set beside the literal one of `VersionPattern`, which
    the rest of the model uses. For a version without `+` the tool's search
    finds a match wherever the literal one does (it may find more, since `.`
    matches any character); for a version with build metadata it can miss
    the version's own text. Groups and the other metacharacters are not
    modelled: no semantic version's text contains them, only the "(unknown)"
    shown for a config without a version. */
module VersionRegex {
  import opened Text
  import opened VersionPattern

  predicate IsLineTerminator(c: char) {
    c == '\n' || c == '\r' || c == '\U{2028}' || c == '\U{2029}'
  }

  /** One pattern character, read as a regular-expression atom, against one
      character of the text. */
  predicate AtomMatches(p: char, c: char) {
    if p == '.' then !IsLineTerminator(c) else c == p
  }

  predicate IsVersionChar(c: char) {
    ('a' <= c <= 'z') || ('A' <= c <= 'Z') || ('0' <= c <= '9') || c == '-' || c == '.' || c == '+'
  }

  /** Whether the pattern read from `p` matches the whole of `t`. A `+`
      after a character lets that character's atom match a run of one or
      more characters. */
  function PatternMatches(p: string, t: string): (r: bool)
    ensures r && |p| == 0 ==> |t| == 0
    ensures r && |p| > 0 ==> |t| > 0 && AtomMatches(p[0], t[0])
    decreases |p| + |t|
  {
    if |p| == 0 then |t| == 0
    else if |t| == 0 then false
    else if |p| > 1 && p[1] == '+' then
      AtomMatches(p[0], t[0]) && (PatternMatches(p[2..], t[1..]) || PatternMatches(p, t[1..]))
    else AtomMatches(p[0], t[0]) && PatternMatches(p[1..], t[1..])
  }

  /** A version without `+` and without line terminators matches its own
      text under the pattern reading. */
  lemma {:induction false} PlainVersionMatchesItself(p: string)
    requires forall k :: 0 <= k < |p| ==> IsVersionChar(p[k]) && p[k] != '+'
    ensures PatternMatches(p, p)
    decreases |p|
  {
    if |p| > 0 {
      PlainVersionMatchesItself(p[1..]);
    }
  }

  /** Without `.` and `+` the pattern reading is the literal one. */
  lemma {:induction false} LiteralVersionPattern(p: string, t: string)
    requires forall k :: 0 <= k < |p| ==> p[k] != '.' && p[k] != '+'
    ensures PatternMatches(p, t) <==> t == p
    decreases |p|
  {
    if |p| > 0 && |t| > 0 {
      LiteralVersionPattern(p[1..], t[1..]);
      if t == p {
        assert t[1..] == p[1..];
      } else if t[0] == p[0] {
        assert t == [t[0]] + t[1..] && p == [p[0]] + p[1..];
      }
    }
  }

  /** A span on which the tool's regular expression matches: the key, the
      run of white space after it, a quote, text the version pattern
      matches, and the closing quote at `w`. */
  predicate IsPatternMatchSpan(s: string, cur: string, i: int, w: int) {
    && 0 <= i
    && i + |Key| < w < |s|
    && s[i..i + |Key|] == Key
    && var q := WhitespaceEnd(s, i + |Key|);
       && q < w
       && s[q] == '"'
       && s[w] == '"'
       && PatternMatches(cur, s[q + 1..w])
  }

  /** The tool's search finds a match somewhere in the text; without one,
      `String.prototype.replace` returns the text unchanged and the rewrite
      fails with "Version <cur> not found". */
  predicate PatternFinds(s: string, cur: string) {
    exists i, w | 0 <= i < w < |s| :: IsPatternMatchSpan(s, cur, i, w)
  }

  /** The quoted version at `q..j` has its quotes at `q` and `j - 1` and the
      version between them. */
  lemma QuotedSpan(s: string, cur: string, q: int, j: int)
    requires 0 <= q <= j <= |s| && s[q..j] == Quoted(cur)
    ensures j == q + |cur| + 2
    ensures s[q] == '"' && s[j - 1] == '"' && s[q + 1..j - 1] == cur
  {
    assert s[q] == s[q..j][0];
    assert s[j - 1] == s[q..j][|cur| + 1];
    forall k | 0 <= k < |cur|
      ensures s[q + 1..j - 1][k] == cur[k]
    {
      assert s[q + 1 + k] == s[q..j][k + 1];
    }
  }

  /** For a version without `+`, the tool's search finds a match wherever
      the literal search does. */
  lemma LiteralMatchIsFound(s: string, cur: string, i: int, j: int)
    requires forall k :: 0 <= k < |cur| ==> IsVersionChar(cur[k]) && cur[k] != '+'
    requires IsMatchSpan(s, cur, i, j)
    ensures PatternFinds(s, cur)
  {
    MatchEndDetermined(s, cur, i, j);
    var q := j - |cur| - 2;
    QuotedSpan(s, cur, q, j);
    PlainVersionMatchesItself(cur);
    assert IsPatternMatchSpan(s, cur, i, j - 1);
  }

  /** The config written by the release rewrite of `1.0.0` to
      `1.0.1+build.1`. */
  const ReleasedConfig: string := "{\"version\": \"1.0.1+build.1\"}"

  const BuildRelease: string := "1.0.1+build.1"

  /** A prefix without `+` matches its own text and hands the rest of the
      match on, unless the rest starts with a `+` that would repeat the
      prefix's last character. */
  lemma {:induction false} PlainPrefixMatches(a: string, p: string, t: string)
    requires forall k :: 0 <= k < |a| ==> IsVersionChar(a[k]) && a[k] != '+'
    requires |p| > 0 ==> p[0] != '+'
    ensures PatternMatches(a + p, a + t) <==> PatternMatches(p, t)
    decreases |a|
  {
    if |a| > 0 {
      assert (a + p)[0] == a[0] && (a + t)[0] == a[0];
      assert (a + p)[1..] == a[1..] + p && (a + t)[1..] == a[1..] + t;
      assert |a + p| > 1 ==> (a + p)[1] != '+';
      PlainPrefixMatches(a[1..], p, t);
    } else {
      assert a + p == p && a + t == t;
    }
  }

  /** The pattern read from `1+build.1` does not match that text: `1+` takes
      the `1`, and then neither `b` nor a further `1` matches the `+`. */
  lemma PlusDoesNotMatchItself()
    ensures !PatternMatches("1+build.1", "1+build.1")
  {
    assert "1+build.1"[1..] == "+build.1";
    assert "1+build.1"[2..] == "build.1";
  }

  /** The pattern read from `1.0.1+build.1` does not match that text. */
  lemma BuildMetadataDoesNotMatchItself()
    ensures !PatternMatches(BuildRelease, BuildRelease)
  {
    assert BuildRelease == "1.0." + "1+build.1";
    PlainPrefixMatches("1.0.", "1+build.1", "1+build.1");
    PlusDoesNotMatchItself();
  }

  /** The only quotes of the released config. */
  lemma ReleasedConfigQuotes(k: int)
    requires 0 <= k < |ReleasedConfig| && ReleasedConfig[k] == '"'
    ensures k == 1 || k == 9 || k == 12 || k == 26
  {
  }

  /** The release rewrite of `{"version":"1.0.0"}` to `1.0.1+build.1`: the
      tool's search finds the current version, the text written is the
      released config, and the literal search finds the release version
      there. */
  lemma ReleaseRewriteOfExample()
    ensures Substitute(CompactConfig, "1.0.0", BuildRelease) == ReleasedConfig
    ensures PatternFinds(CompactConfig, "1.0.0")
    ensures FirstMatch(ReleasedConfig, BuildRelease).Some?
  {
    var s0 := CompactConfig;
    CompactConfigMatch();
    assert s0[..1] + Replacement(BuildRelease) + s0[18..] == ReleasedConfig;
    LiteralMatchIsFound(s0, "1.0.0", 1, 18);
    SubstitutedIsFound(s0, "1.0.0", BuildRelease, 1, 18);
  }

  lemma ReleasedConfigValue()
    ensures ReleasedConfig[13..26] == BuildRelease
  {
  }

  /** No span of the released config matches the tool's pattern for
      `1.0.1+build.1`: the key is at 1, the value between the quotes at 12
      and 26 is the version's own text, which its pattern does not match. */
  lemma ReleasedConfigHasNoPatternMatch(i: int, w: int)
    requires 0 <= i < w < |ReleasedConfig|
    ensures !IsPatternMatchSpan(ReleasedConfig, BuildRelease, i, w)
  {
    var s := ReleasedConfig;
    if IsPatternMatchSpan(s, BuildRelease, i, w) {
      assert s[i] == s[i..i + |Key|][0] == '"';
      assert s[i + 8] == s[i..i + |Key|][8] == '"';
      ReleasedConfigQuotes(i);
      ReleasedConfigQuotes(i + 8);
      assert i == 1;
      assert WhitespaceEnd(s, 11) == 12;
      ReleasedConfigQuotes(w);
      ReleasedConfigValue();
      BuildMetadataDoesNotMatchItself();
      assert false;
    }
  }

  /** A release version with build metadata: the release rewrite writes
      `"version": "1.0.1+build.1"`, in which the literal search finds the
      release version and the tool's search does not, so the tool's
      post-release rewrite fails after the release has been tagged and
      pushed. */
  lemma BuildMetadataNotFound()
    ensures Substitute(CompactConfig, "1.0.0", BuildRelease) == ReleasedConfig
    ensures PatternFinds(CompactConfig, "1.0.0")
    ensures FirstMatch(ReleasedConfig, BuildRelease).Some?
    ensures !PatternFinds(ReleasedConfig, BuildRelease)
  {
    ReleaseRewriteOfExample();
    var s := ReleasedConfig;
    forall i, w | 0 <= i < w < |s|
      ensures !IsPatternMatchSpan(s, BuildRelease, i, w)
    {
      ReleasedConfigHasNoPatternMatch(i, w);
    }
  }
}
