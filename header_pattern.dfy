/** The header pattern `/diff --git a\/(.+?) b\/(.+)/` that both segmenters run
    on a `diff --git` line (src/Diff/GitDiff.ts:114-122 and
    src/Tools/GitDiffParser.ts:29-30), written out as an explicit search instead
    of a regular-expression engine.

    The pattern is unanchored, so a match may start anywhere in the line; the
    regular expression engine tries start positions from left to right, and at
    each one grows the lazy group 1 a character at a time until ` b/` followed
    by at least one more character is found. `.` is JavaScript's dot: any
    character except a line terminator. */
module HeaderPattern {
  import opened Text
  import opened Optional

  const Lead: string := "diff --git a/"
  const Unknown: string := "unknown"

  /** JavaScript's `.`: everything but `\n`, `\r`, U+2028 and U+2029. */
  predicate IsDot(c: char) {
    c != '\n' && c != '\r' && c != '\U{2028}' && c != '\U{2029}'
  }

  /** The pattern matches `line` with the match starting at `s` and group 1
      ending just before `q` (so that ` b/` sits at `q`). */
  ghost predicate Matches(line: string, s: nat, q: nat) {
    s + |Lead| < q && q + 3 < |line| &&
    line[s..s + |Lead|] == Lead &&
    (forall i :: s + |Lead| <= i < q ==> IsDot(line[i])) &&
    line[q..q + 3] == " b/" && IsDot(line[q + 3])
  }

  /** The match the engine reports: leftmost start, and at that start the
      shortest group 1. */
  ghost predicate IsReportedMatch(line: string, s: nat, q: nat) {
    Matches(line, s, q) &&
    forall s': nat, q': nat :: Matches(line, s', q') ==> s < s' || (s == s' && q <= q')
  }

  /** End of the run of dot characters that starts at `i` (greedy `.+`). */
  function DotRunEnd(line: string, i: nat): (e: nat)
    requires i <= |line|
    ensures i <= e <= |line|
    ensures forall k :: i <= k < e ==> IsDot(line[k])
    ensures e < |line| ==> !IsDot(line[e])
    decreases |line| - i
  {
    if i == |line| || !IsDot(line[i]) then i else DotRunEnd(line, i + 1)
  }

  /** Group 2 of a match whose ` b/` is at `q`: everything up to the end of
      the line (or to the first line terminator). */
  function Group2(line: string, q: nat): string
    requires q + 3 <= |line|
  {
    line[q + 3..DotRunEnd(line, q + 3)]
  }

  /** The lazy group 1: starting from a group 1 that already ends at `q`,
      the first end position at which the rest of the pattern matches. */
  function LazyGroupEnd(line: string, s: nat, q: nat): (r: Option<nat>)
    requires s + |Lead| < q <= |line|
    requires line[s..s + |Lead|] == Lead
    requires forall i :: s + |Lead| <= i < q ==> IsDot(line[i])
    ensures r.Some? ==> q <= r.value && Matches(line, s, r.value)
    ensures r.Some? ==> forall q': nat :: q <= q' < r.value ==> !Matches(line, s, q')
    ensures r.None? ==> forall q': nat :: q <= q' ==> !Matches(line, s, q')
    decreases |line| - q
  {
    if q + 3 >= |line| then None
    else if line[q..q + 3] == " b/" && IsDot(line[q + 3]) then Some(q)
    else if IsDot(line[q]) then LazyGroupEnd(line, s, q + 1)
    else None
  }

  /** The engine's scan over start positions `s`, `s + 1`, ...: the start and
      group 1 end of the first match found. */
  function FirstMatch(line: string, s: nat): (r: Option<(nat, nat)>)
    requires s <= |line|
    ensures r.Some? ==> s <= r.value.0 && Matches(line, r.value.0, r.value.1)
    ensures r.Some? ==> forall s': nat, q': nat :: s <= s' && Matches(line, s', q') ==>
                          r.value.0 < s' || (r.value.0 == s' && r.value.1 <= q')
    ensures r.None? ==> forall s': nat, q': nat :: s <= s' ==> !Matches(line, s', q')
    decreases |line| - s
  {
    if s + |Lead| >= |line| then None
    else if line[s..s + |Lead|] == Lead && IsDot(line[s + |Lead|]) then
      match LazyGroupEnd(line, s, s + |Lead| + 1)
      case Some(q) => Some((s, q))
      case None => FirstMatch(line, s + 1)
    else FirstMatch(line, s + 1)
  }

  /** `getFileNameFromDiffLine` (and the inlined copy in GitDiffParser.parse):
      group 2 of the reported match, or `'unknown'` when the line does not match. */
  function FileName(line: string): (name: string)
    ensures (forall s: nat, q: nat :: !Matches(line, s, q)) ==> name == Unknown
    ensures forall s: nat, q: nat :: IsReportedMatch(line, s, q) ==> name == Group2(line, q)
    ensures name != []
  {
    match FirstMatch(line, 0)
    case Some((s, q)) => Group2(line, q)
    case None => Unknown
  }

  /** The example of a malformed header: there is no `a/` path pair. */
  lemma MalformedHeaderIsUnknown()
    ensures FileName("diff --git malformed/diff/line") == Unknown
  {
    var line := "diff --git malformed/diff/line";
    var tail := "formed/diff/line";
    assert line[14..] == tail;
    assert ' ' !in tail;
    forall s: nat, q: nat ensures !Matches(line, s, q) {
      if 14 <= q && q + 3 < |line| {
        assert line[q] == tail[q - 14] && tail[q - 14] in tail;
        assert line[q..q + 3][0] != ' ';
      }
    }
  }

  /** `a/ b/` has empty paths, which `.+?` and `.+` both refuse. */
  lemma EmptyPathsAreUnknown()
    ensures FileName("diff --git a/ b/") == Unknown
  {
  }

  /** A well-formed rename header yields the `b/` side. */
  lemma RenameHeaderName()
    ensures FileName("diff --git a/old.txt b/new.txt") == "new.txt"
  {
    var line := "diff --git a/old.txt b/new.txt";
    RenameHeaderMatch();
    var e := DotRunEnd(line, 23);
    assert e == |line|;
    assert Group2(line, 20) == "new.txt" by {
      assert line[23..e] == "new.txt";
    }
  }

  /** In the rename header the reported match puts ` b/` at index 20. */
  lemma RenameHeaderMatch()
    ensures IsReportedMatch("diff --git a/old.txt b/new.txt", 0, 20)
  {
    var line := "diff --git a/old.txt b/new.txt";
    assert line[20..23] == " b/" by {
      assert line[20] == ' ' && line[21] == 'b' && line[22] == '/';
    }
    assert Matches(line, 0, 20);
    forall s': nat, q': nat | s' == 0 && 13 <= q' < 20 ensures !Matches(line, s', q') {
      assert line[q'] != ' ';
      assert line[q'..q' + 3][0] != ' ';
    }
  }
}
