/** The text-level version rewrite: find the first `"version":` key followed
    by optional white space and the quoted current version, and replace that
    span with `"version": "<next>"`, leaving every other character alone.

    The current version is matched as a literal string; `VersionRegex`
    models the tool's reading of it as a regular expression and where the
    two part. */
module VersionPattern {
  import opened Results
  import opened Text

  const Key: string := "\"version\":"

  function Quoted(v: string): string {
    "\"" + v + "\""
  }

  /** The text written in place of a match. */
  function Replacement(v: string): string {
    "\"version\": \"" + v + "\""
  }

  /** A span of the text in which the tool finds a match: the key, any run of
      white space, then the current version in double quotes. */
  predicate IsMatchSpan(s: string, cur: string, i: int, j: int) {
    && 0 <= i
    && i + |Key| + |cur| + 2 <= j <= |s|
    && s[i..i + |Key|] == Key
    && AllWhitespace(s[i + |Key|..j - |cur| - 2])
    && s[j - |cur| - 2..j] == Quoted(cur)
  }

  /** No match starts before position `k`. */
  predicate NoMatchBefore(s: string, cur: string, k: int) {
    forall i, j :: 0 <= i < k && i <= j <= |s| ==> !IsMatchSpan(s, cur, i, j)
  }

  predicate HasNoMatch(s: string, cur: string) {
    NoMatchBefore(s, cur, |s| + 1)
  }

  /** The leftmost match, as a regular-expression search reports it. */
  predicate IsFirstMatch(s: string, cur: string, i: int, j: int) {
    IsMatchSpan(s, cur, i, j) && NoMatchBefore(s, cur, i)
  }

  datatype Span = Span(start: nat, end: nat)

  /** The end of the run of white space that starts at `k`. */
  function WhitespaceEnd(s: string, k: nat): (e: nat)
    requires k <= |s|
    ensures k <= e <= |s|
    ensures forall m :: k <= m < e ==> IsJsWhitespace(s[m])
    ensures e < |s| ==> !IsJsWhitespace(s[e])
    decreases |s| - k
  {
    if k < |s| && IsJsWhitespace(s[k]) then WhitespaceEnd(s, k + 1) else k
  }

  /** A match starting at `i` ends right after the quoted version that
      follows the longest run of white space after the key. */
  lemma MatchEndDetermined(s: string, cur: string, i: int, j: int)
    requires IsMatchSpan(s, cur, i, j)
    ensures j == WhitespaceEnd(s, i + |Key|) + |cur| + 2
  {
    var q := j - |cur| - 2;
    var e := WhitespaceEnd(s, i + |Key|);
    assert s[q] == s[q..j][0] == '"';
  }

  /** A match is determined by where it starts. */
  lemma MatchEndUnique(s: string, cur: string, i: int, j1: int, j2: int)
    requires IsMatchSpan(s, cur, i, j1) && IsMatchSpan(s, cur, i, j2)
    ensures j1 == j2
  {
    MatchEndDetermined(s, cur, i, j1);
    MatchEndDetermined(s, cur, i, j2);
  }

  /** The match starting at `i`, if any. */
  function MatchAt(s: string, cur: string, i: nat): (r: Option<nat>)
    requires i <= |s|
    ensures r.Some? ==> IsMatchSpan(s, cur, i, r.value)
    ensures r.None? ==> forall j :: !IsMatchSpan(s, cur, i, j)
  {
    if i + |Key| <= |s| && s[i..i + |Key|] == Key then
      var e := WhitespaceEnd(s, i + |Key|);
      if e + |cur| + 2 <= |s| && s[e..e + |cur| + 2] == Quoted(cur) then
        assert AllWhitespace(s[i + |Key|..e]);
        Some(e + |cur| + 2)
      else
        assert forall j :: IsMatchSpan(s, cur, i, j) ==> j == e + |cur| + 2 by {
          forall j | IsMatchSpan(s, cur, i, j) {
            MatchEndDetermined(s, cur, i, j);
          }
        }
        None
    else None
  }

  /** The leftmost match starting at or after `k`. */
  function FindFrom(s: string, cur: string, k: nat): (r: Option<Span>)
    requires k <= |s|
    ensures r.Some? ==> k <= r.value.start && IsMatchSpan(s, cur, r.value.start, r.value.end)
    ensures r.Some? ==> forall i, j :: k <= i < r.value.start && i <= j <= |s| ==> !IsMatchSpan(s, cur, i, j)
    ensures r.None? ==> forall i, j :: k <= i <= j <= |s| ==> !IsMatchSpan(s, cur, i, j)
    decreases |s| - k
  {
    match MatchAt(s, cur, k)
    case Some(j) => Some(Span(k, j))
    case None => if k == |s| then None else FindFrom(s, cur, k + 1)
  }

  /** The leftmost match in the whole text. */
  function FirstMatch(s: string, cur: string): (r: Option<Span>)
    ensures r.None? <==> HasNoMatch(s, cur)
    ensures r.Some? ==> IsFirstMatch(s, cur, r.value.start, r.value.end)
  {
    FindFrom(s, cur, 0)
  }

  /** There is at most one leftmost match. */
  lemma FirstMatchUnique(s: string, cur: string, i: int, j: int)
    requires IsFirstMatch(s, cur, i, j)
    ensures FirstMatch(s, cur) == Some(Span(i, j))
  {
    var m := FirstMatch(s, cur);
    assert m.Some?;
    assert m.value.start == i;
    MatchEndUnique(s, cur, i, j, m.value.end);
  }

  /** `contents.replace(/"version":\s*"<cur>"/, '"version": "<next>"')`. */
  function Substitute(s: string, cur: string, next: string): (r: string)
    ensures HasNoMatch(s, cur) ==> r == s
    ensures forall i, j :: IsFirstMatch(s, cur, i, j) ==> r == s[..i] + Replacement(next) + s[j..]
  {
    match FirstMatch(s, cur)
    case None => s
    case Some(m) =>
      assert forall i, j :: IsFirstMatch(s, cur, i, j) ==> i == m.start && j == m.end by {
        forall i, j | IsFirstMatch(s, cur, i, j) {
          FirstMatchUnique(s, cur, i, j);
        }
      }
      s[..m.start] + Replacement(next) + s[m.end..]
  }

  /** The substitution leaves the text unchanged exactly when there is no
      match, or the match already reads `"version": "<next>"`. */
  lemma SubstituteUnchanged(s: string, cur: string, next: string)
    ensures HasNoMatch(s, cur) ==> Substitute(s, cur, next) == s
    ensures forall i, j :: IsFirstMatch(s, cur, i, j) ==>
              (Substitute(s, cur, next) == s <==> s[i..j] == Replacement(next))
  {
    forall i, j | IsFirstMatch(s, cur, i, j)
      ensures Substitute(s, cur, next) == s <==> s[i..j] == Replacement(next)
    {
      var rep := Replacement(next);
      var r := s[..i] + rep + s[j..];
      assert Substitute(s, cur, next) == r;
      if r == s {
        assert |rep| == j - i;
        assert r[i..i + |rep|] == rep;
        assert s[i..j] == rep;
      }
      if s[i..j] == rep {
        assert s == s[..i] + s[i..j] + s[j..];
      }
    }
  }

  /** After a substitution the text holds a match for the next version where
      the old match was, so a later search for it succeeds, at that place or
      earlier. */
  lemma SubstitutedIsFound(s: string, cur: string, next: string, i: int, j: int)
    requires IsFirstMatch(s, cur, i, j)
    ensures IsMatchSpan(Substitute(s, cur, next), next, i, i + |Replacement(next)|)
    ensures FirstMatch(Substitute(s, cur, next), next).Some?
    ensures FirstMatch(Substitute(s, cur, next), next).value.start <= i
  {
    var r := Substitute(s, cur, next);
    var rep := Replacement(next);
    assert r == s[..i] + rep + s[j..];
    assert r[i..i + |rep|] == rep by {
      MiddleSlice(s[..i], rep, s[j..]);
    }
    ReplacementIsMatch(r, next, i);
  }

  /** Proof step: the middle of a three-part text is recovered by slicing. */
  lemma MiddleSlice(a: string, m: string, b: string)
    ensures (a + m + b)[|a|..|a| + |m|] == m
  {
  }

  /** The replacement text is itself a match for the version it writes. */
  lemma ReplacementIsMatch(r: string, next: string, i: int)
    requires 0 <= i && i + |Replacement(next)| <= |r|
    requires r[i..i + |Replacement(next)|] == Replacement(next)
    ensures IsMatchSpan(r, next, i, i + |Replacement(next)|)
  {
    assert Replacement(next) == Key + " " + Quoted(next);
    SliceParts(r, i, Key, " ", Quoted(next));
    assert AllWhitespace(" ");
  }

  /** A slice that reads `a + b + c` splits into slices reading each part. */
  lemma SliceParts(r: string, i: int, a: string, b: string, c: string)
    requires 0 <= i && i + |a| + |b| + |c| <= |r|
    requires r[i..i + |a| + |b| + |c|] == a + b + c
    ensures r[i..i + |a|] == a
    ensures r[i + |a|..i + |a| + |b|] == b
    ensures r[i + |a| + |b|..i + |a| + |b| + |c|] == c
  {
    var whole := r[i..i + |a| + |b| + |c|];
    forall k | 0 <= k < |a| ensures r[i..i + |a|][k] == a[k] {
      assert r[i + k] == whole[k] == (a + b + c)[k];
    }
    forall k | 0 <= k < |b| ensures r[i + |a|..i + |a| + |b|][k] == b[k] {
      assert r[i + |a| + k] == whole[|a| + k] == (a + b + c)[|a| + k];
    }
    forall k | 0 <= k < |c| ensures r[i + |a| + |b|..i + |a| + |b| + |c|][k] == c[k] {
      assert r[i + |a| + |b| + k] == whole[|a| + |b| + k] == (a + b + c)[|a| + |b| + k];
    }
  }

  lemma WhitespaceSlice(s: string, p: int, q: int)
    requires 0 <= p <= q <= |s| && AllWhitespace(s[p..q])
    ensures forall k :: p <= k < q ==> IsJsWhitespace(s[k])
  {
    forall k | p <= k < q
      ensures IsJsWhitespace(s[k])
    {
      assert s[k] == s[p..q][k - p];
    }
  }

  /** A match whose text already reads `"version": "<next>"` is a match for
      `next` itself: the white space must be the single space and the quoted
      versions the same. */
  lemma ReplacementMatchesOnlyItself(s: string, cur: string, next: string, i: int, j: int)
    requires IsMatchSpan(s, cur, i, j) && s[i..j] == Replacement(next)
    ensures cur == next
  {
    var t := s[i..j];
    var p := i + |Key|;
    var q := j - |cur| - 2;
    assert t == Key + " " + Quoted(next);
    assert s[p] == t[|Key|] == ' ';
    assert s[q] == s[q..j][0] == '"';
    assert p < q;
    assert s[p + 1] == t[|Key| + 1] == '"';
    assert !IsJsWhitespace(s[p + 1]);
    WhitespaceSlice(s, p, q);
    assert q == p + 1;
    assert s[j - |cur| - 2..j] == t[|Key| + 1..];
    assert Quoted(cur) == Quoted(next);
    assert cur == Quoted(cur)[1..|cur| + 1];
  }

  /** Rewriting to a different version twice in a row, searching the second
      time for the version the first rewrite wrote, changes the text both
      times: the first rewrite leaves a match for its version that does not
      already read as the second one. */
  lemma {:induction false} SecondRewriteChanges(s: string, cur: string, mid: string, next: string)
    requires Substitute(s, cur, mid) != s
    requires mid != next
    ensures Substitute(Substitute(s, cur, mid), mid, next) != Substitute(s, cur, mid)
  {
    var s1 := Substitute(s, cur, mid);
    var first := FirstMatch(s, cur);
    assert first.Some?;
    SubstitutedIsFound(s, cur, mid, first.value.start, first.value.end);
    var second := FirstMatch(s1, mid);
    SubstituteUnchanged(s1, mid, next);
    if s1[second.value.start..second.value.end] == Replacement(next) {
      ReplacementMatchesOnlyItself(s1, mid, next, second.value.start, second.value.end);
    }
  }

  /** A compact config, with no white space after the key. */
  const CompactConfig: string := "{\"version\":\"1.0.0\"}"

  /** The match in the compact config is the whole `"version":"1.0.0"`
      pair. */
  lemma CompactConfigMatch()
    ensures IsFirstMatch(CompactConfig, "1.0.0", 1, 18)
  {
    var s := CompactConfig;
    assert s[1..11] == Key;
    assert s[11..11] == "";
    assert s[11..18] == Quoted("1.0.0");
    assert IsMatchSpan(s, "1.0.0", 1, 18);
    assert s[0] == '{';
  }

  /** The compact config is rewritten with a single space after the
      colon. */
  lemma RewriteExample()
    ensures Substitute(CompactConfig, "1.0.0", "1.0.1") == "{\"version\": \"1.0.1\"}"
  {
    CompactConfigMatch();
    assert CompactConfig[..1] + Replacement("1.0.1") + CompactConfig[18..] == "{\"version\": \"1.0.1\"}";
  }
}
