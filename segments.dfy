/** What the two segmenters share: the split lines are cut into runs that each
    start at a line beginning with `diff --git` and stop before the next such
    line (src/Diff/GitDiff.ts:47-63, src/Tools/GitDiffParser.ts:22-38). Lines
    before the first header belong to no run. Also here: "first line that
    satisfies p" and "value set by the last line that assigns it", the two
    scan patterns the record fields follow. */
module Segmentation {
  import opened Text
  import opened Optional

  /** What a call returns: the records, or the line at which the source
      dereferences the still-`null` current record and throws. */
  datatype Outcome<R> = Parsed(records: seq<R>) | NullDereference(line: nat)

  /** `line.startsWith('diff --git')`: no trailing space is required. */
  predicate IsHeader(line: string) {
    StartsWith(line, "diff --git")
  }

  /** Index of the first line satisfying `p`, or `|ls|` when there is none. */
  function FirstWhere(ls: seq<string>, p: string -> bool): (r: nat)
    ensures r <= |ls|
    ensures forall j :: 0 <= j < r ==> !p(ls[j])
    ensures r < |ls| ==> p(ls[r])
    decreases |ls|
  {
    if ls == [] then 0
    else if p(ls[0]) then 0
    else 1 + FirstWhere(ls[1..], p)
  }

  /** The first line satisfying `p` after one more line is appended. */
  lemma FirstWhereAppend(ls: seq<string>, p: string -> bool, x: string)
    ensures FirstWhere(ls + [x], p) ==
      if FirstWhere(ls, p) < |ls| then FirstWhere(ls, p)
      else if p(x) then |ls| else |ls| + 1
  {
    var ext := ls + [x];
    var r := FirstWhere(ls, p);
    var r' := FirstWhere(ext, p);
    assert forall j :: 0 <= j < |ls| ==> ext[j] == ls[j];
    assert ext[|ls|] == x;
    if r < |ls| {
      assert p(ext[r]);
      assert r' <= r;
    } else {
      assert forall j :: 0 <= j < |ls| ==> !p(ext[j]);
      assert r' >= |ls|;
    }
  }

  /** Where line `i` stands relative to the first line satisfying `p`. */
  lemma FirstWhereAt(ls: seq<string>, p: string -> bool, i: nat)
    requires i < |ls|
    ensures p(ls[i]) ==> FirstWhere(ls, p) <= i
    ensures !p(ls[i]) && i <= FirstWhere(ls, p) ==> i < FirstWhere(ls, p)
  {
    var r := FirstWhere(ls, p);
    if i < r {
      assert !p(ls[i]);
    } else if i == r {
      assert p(ls[i]);
    }
  }

  /** A run of lines that the scan turns into one record: its header, then
      lines none of which is a header. */
  ghost predicate IsSegment(seg: seq<string>) {
    |seg| >= 1 && IsHeader(seg[0]) &&
    forall j :: 1 <= j < |seg| ==> !IsHeader(seg[j])
  }

  function Flatten(segs: seq<seq<string>>): seq<string>
    decreases |segs|
  {
    if segs == [] then [] else Flatten(segs[..|segs| - 1]) + segs[|segs| - 1]
  }

  /** The header lines of `ls`, in order. */
  function HeaderLines(ls: seq<string>): seq<string>
    decreases |ls|
  {
    if ls == [] then []
    else HeaderLines(ls[..|ls| - 1]) + if IsHeader(ls[|ls| - 1]) then [ls[|ls| - 1]] else []
  }

  /** The runs the scan builds from `body`, the lines from the first header
      on: a header line opens a new run, any other line extends the open one. */
  function Segments(body: seq<string>): (segs: seq<seq<string>>)
    requires body == [] || IsHeader(body[0])
    ensures |segs| == 0 <==> body == []
    ensures forall k :: 0 <= k < |segs| ==> |segs[k]| >= 1
    decreases |body|
  {
    if body == [] then []
    else
      var init := Segments(body[..|body| - 1]);
      var x := body[|body| - 1];
      if |body| == 1 then [[x]]
      else if IsHeader(x) then init + [[x]]
      else init[..|init| - 1] + [init[|init| - 1] + [x]]
  }

  /** The runs partition `body`: each is a header followed by non-header
      lines, and together, in order, they are `body`. */
  lemma {:induction false} SegmentsAreRuns(body: seq<string>)
    requires body == [] || IsHeader(body[0])
    ensures forall k :: 0 <= k < |Segments(body)| ==> IsSegment(Segments(body)[k])
    ensures Flatten(Segments(body)) == body
    decreases |body|
  {
    var n := |body|;
    if n == 1 {
      assert body == [body[0]];
    } else if n > 1 {
      var init, x := body[..n - 1], body[n - 1];
      SegmentsAreRuns(init);
      assert body == init + [x];
      if IsHeader(x) {
        RunsAfterNewRun(Segments(init), x);
      } else {
        RunsAfterLongerRun(Segments(init), x);
      }
    }
  }

  lemma RunsAfterNewRun(segs: seq<seq<string>>, x: string)
    requires forall k :: 0 <= k < |segs| ==> IsSegment(segs[k])
    requires IsHeader(x)
    ensures forall k :: 0 <= k < |segs| + 1 ==> IsSegment((segs + [[x]])[k])
    ensures Flatten(segs + [[x]]) == Flatten(segs) + [x]
  {
    assert (segs + [[x]])[..|segs|] == segs;
  }

  lemma RunsAfterLongerRun(segs: seq<seq<string>>, x: string)
    requires |segs| >= 1 && forall k :: 0 <= k < |segs| ==> IsSegment(segs[k])
    requires !IsHeader(x)
    ensures var segs' := segs[..|segs| - 1] + [segs[|segs| - 1] + [x]];
      (forall k :: 0 <= k < |segs'| ==> IsSegment(segs'[k])) &&
      Flatten(segs') == Flatten(segs) + [x]
  {
    var m := |segs|;
    var segs' := segs[..m - 1] + [segs[m - 1] + [x]];
    assert segs'[..m - 1] == segs[..m - 1];
    assert segs == segs[..m - 1] + [segs[m - 1]];
    assert Flatten(segs) == Flatten(segs[..m - 1]) + segs[m - 1];
    assert IsSegment(segs[m - 1] + [x]);
  }

  /** The runs of all the lines: lines before the first header are dropped. */
  function Runs(lines: seq<string>): seq<seq<string>> {
    Segments(lines[FirstWhere(lines, IsHeader)..])
  }

  /** Appending a line to the lines from the first header on: a header opens a
      new run, any other line joins the last run. */
  lemma SegmentsStep(body: seq<string>, x: string)
    requires |body| >= 1 && IsHeader(body[0])
    ensures IsHeader(x) ==> Segments(body + [x]) == Segments(body) + [[x]]
    ensures !IsHeader(x) ==>
      var segs := Segments(body);
      Segments(body + [x]) == segs[..|segs| - 1] + [segs[|segs| - 1] + [x]]
  {
    assert (body + [x])[..|body|] == body;
  }

  /** The runs are determined by the partition they form: any split of `body`
      into header-led runs without inner headers is `Segments(body)`. */
  lemma {:induction false} SegmentsUnique(body: seq<string>, segs: seq<seq<string>>)
    requires forall k :: 0 <= k < |segs| ==> IsSegment(segs[k])
    requires Flatten(segs) == body
    ensures body == [] || IsHeader(body[0])
    ensures segs == Segments(body)
    decreases |body|, 1
  {
    FlattenFirst(segs);
    if body == [] {
      FlattenEmpty(segs);
    } else if |segs[|segs| - 1]| == 1 {
      UniqueWhenLastRunIsHeader(body, segs);
    } else {
      UniqueWhenLastRunIsLonger(body, segs);
    }
  }

  lemma {:induction false} UniqueWhenLastRunIsHeader(body: seq<string>, segs: seq<seq<string>>)
    requires forall k :: 0 <= k < |segs| ==> IsSegment(segs[k])
    requires Flatten(segs) == body && body != []
    requires |segs| >= 1 && |segs[|segs| - 1]| == 1
    ensures IsHeader(body[0])
    ensures segs == Segments(body)
    decreases |body|, 0
  {
    FlattenFirst(segs);
    var n, m := |body|, |segs|;
    var rest := segs[..m - 1];
    var x := body[n - 1];
    FlattenLast(segs);
    assert body == Flatten(rest) + segs[m - 1];
    assert segs[m - 1] == [x];
    assert Flatten(rest) == body[..n - 1];
    SegmentsUnique(body[..n - 1], rest);
    if n == 1 {
      FlattenEmpty(rest);
      assert segs == [[x]];
    } else {
      assert segs == rest + [[x]];
      SegmentsStep(body[..n - 1], x);
      assert body[..n - 1] + [x] == body;
    }
  }

  lemma {:induction false} UniqueWhenLastRunIsLonger(body: seq<string>, segs: seq<seq<string>>)
    requires forall k :: 0 <= k < |segs| ==> IsSegment(segs[k])
    requires Flatten(segs) == body && body != []
    requires |segs| >= 1 && |segs[|segs| - 1]| > 1
    ensures IsHeader(body[0])
    ensures segs == Segments(body)
    decreases |body|, 0
  {
    FlattenFirst(segs);
    var n, m := |body|, |segs|;
    var last := segs[m - 1];
    var rest := segs[..m - 1] + [last[..|last| - 1]];
    DropLastLine(segs, rest);
    assert body[..n - 1] + [body[n - 1]] == body;
    SegmentsUnique(body[..n - 1], rest);
    SegmentsStep(body[..n - 1], body[n - 1]);
  }

  /** Removing the last line of a run of two or more lines leaves runs whose
      flattening lacks that line. */
  lemma DropLastLine(segs: seq<seq<string>>, rest: seq<seq<string>>)
    requires forall k :: 0 <= k < |segs| ==> IsSegment(segs[k])
    requires |segs| >= 1 && |segs[|segs| - 1]| > 1
    requires rest == segs[..|segs| - 1] + [segs[|segs| - 1][..|segs[|segs| - 1]| - 1]]
    ensures var x := segs[|segs| - 1][|segs[|segs| - 1]| - 1];
      !IsHeader(x) &&
      (forall k :: 0 <= k < |rest| ==> IsSegment(rest[k])) &&
      Flatten(segs) == Flatten(rest) + [x] &&
      segs == rest[..|rest| - 1] + [rest[|rest| - 1] + [x]]
  {
    var m := |segs|;
    var last := segs[m - 1];
    var x := last[|last| - 1];
    var shorter := last[..|last| - 1];
    FlattenLast(segs);
    FlattenLast(rest);
    assert rest[..m - 1] == segs[..m - 1];
    assert last == shorter + [x];
    assert IsSegment(rest[m - 1]);
  }

  lemma FlattenEmpty(segs: seq<seq<string>>)
    requires forall k :: 0 <= k < |segs| ==> IsSegment(segs[k])
    requires Flatten(segs) == []
    ensures segs == []
  {
  }

  lemma FlattenLast(segs: seq<seq<string>>)
    requires |segs| >= 1
    ensures Flatten(segs) == Flatten(segs[..|segs| - 1]) + segs[|segs| - 1]
  {
  }

  /** A flattening of header-led runs starts with the first run's header. */
  lemma {:induction false} FlattenFirst(segs: seq<seq<string>>)
    requires forall k :: 0 <= k < |segs| ==> IsSegment(segs[k])
    ensures segs != [] ==> IsSegment(segs[0]) && |Flatten(segs)| >= 1 && Flatten(segs)[0] == segs[0][0]
    ensures Flatten(segs) == [] || IsHeader(Flatten(segs)[0])
    decreases |segs|
  {
    if segs != [] {
      var init := segs[..|segs| - 1];
      FlattenFirst(init);
      if init != [] {
        assert init[0] == segs[0];
      }
    }
  }

  /** One run per header line, in header order: run `k` opens with the `k`-th
      header line of `body`. */
  lemma {:induction false} SegmentsFollowHeaders(body: seq<string>)
    requires body == [] || IsHeader(body[0])
    ensures |Segments(body)| == |HeaderLines(body)|
    ensures forall k :: 0 <= k < |Segments(body)| ==> Segments(body)[k][0] == HeaderLines(body)[k]
    decreases |body|
  {
    if body != [] {
      var n := |body|;
      if n == 1 {
        assert HeaderLines(body) == [body[0]];
      } else {
        var init := body[..n - 1];
        SegmentsFollowHeaders(init);
        HeadsFollowStep(init, body[n - 1]);
        assert init + [body[n - 1]] == body;
      }
    }
  }

  lemma HeadsFollowStep(init: seq<string>, x: string)
    requires |init| >= 1 && IsHeader(init[0])
    requires |Segments(init)| == |HeaderLines(init)|
    requires forall k :: 0 <= k < |Segments(init)| ==> Segments(init)[k][0] == HeaderLines(init)[k]
    ensures |Segments(init + [x])| == |HeaderLines(init + [x])|
    ensures forall k :: 0 <= k < |Segments(init + [x])| ==>
      Segments(init + [x])[k][0] == HeaderLines(init + [x])[k]
  {
    SegmentsStep(init, x);
    HeaderLinesSnoc(init, x);
    if IsHeader(x) {
      HeadsAfterNewRun(Segments(init), HeaderLines(init), x);
    } else {
      HeadsAfterLongerRun(Segments(init), HeaderLines(init), x);
    }
  }

  lemma HeaderLinesSnoc(ls: seq<string>, x: string)
    ensures HeaderLines(ls + [x]) == HeaderLines(ls) + if IsHeader(x) then [x] else []
  {
    assert (ls + [x])[..|ls|] == ls;
  }

  /** Run heads still match header lines after a new run `[x]`. */
  lemma HeadsAfterNewRun(segs: seq<seq<string>>, hs: seq<string>, x: string)
    requires |segs| == |hs|
    requires forall k :: 0 <= k < |segs| ==> |segs[k]| >= 1 && segs[k][0] == hs[k]
    ensures forall k :: 0 <= k < |segs| + 1 ==> (segs + [[x]])[k][0] == (hs + [x])[k]
  {
  }

  /** Run heads are unchanged when the last run grows. */
  lemma HeadsAfterLongerRun(segs: seq<seq<string>>, hs: seq<string>, x: string)
    requires |segs| == |hs| >= 1
    requires forall k :: 0 <= k < |segs| ==> |segs[k]| >= 1 && segs[k][0] == hs[k]
    ensures var segs' := segs[..|segs| - 1] + [segs[|segs| - 1] + [x]];
      |segs'| == |hs| && forall k :: 0 <= k < |segs'| ==> segs'[k][0] == hs[k]
  {
    var segs' := segs[..|segs| - 1] + [segs[|segs| - 1] + [x]];
    forall k | 0 <= k < |segs'| ensures segs'[k][0] == hs[k] {
      if k < |segs| - 1 {
        assert segs'[k] == segs[k];
      }
    }
  }

  /** Header lines of a concatenation. */
  lemma {:induction false} HeaderLinesAppend(a: seq<string>, b: seq<string>)
    ensures HeaderLines(a + b) == HeaderLines(a) + HeaderLines(b)
    decreases |b|
  {
    if b == [] {
      assert a + b == a;
    } else {
      var n := |b|;
      assert (a + b)[..|a + b| - 1] == a + b[..n - 1];
      HeaderLinesAppend(a, b[..n - 1]);
    }
  }

  /** Lines without a header contribute no header line. */
  lemma {:induction false} NoHeaderLines(ls: seq<string>)
    requires forall j :: 0 <= j < |ls| ==> !IsHeader(ls[j])
    ensures HeaderLines(ls) == []
    decreases |ls|
  {
    if ls != [] {
      NoHeaderLines(ls[..|ls| - 1]);
    }
  }

  /** Cutting off the lines before the first header keeps every header line. */
  lemma HeaderLinesFromFirstHeader(ls: seq<string>)
    ensures HeaderLines(ls[FirstWhere(ls, IsHeader)..]) == HeaderLines(ls)
  {
    var h := FirstWhere(ls, IsHeader);
    assert ls == ls[..h] + ls[h..];
    HeaderLinesAppend(ls[..h], ls[h..]);
    NoHeaderLines(ls[..h]);
  }

  /** Joining the runs' texts with line feeds is joining all their lines. */
  lemma {:induction false} JoinRuns(segs: seq<seq<string>>)
    requires forall k :: 0 <= k < |segs| ==> IsSegment(segs[k])
    ensures Join(JoinEach(segs)) == Join(Flatten(segs))
    decreases |segs|
  {
    if |segs| > 1 {
      var m := |segs|;
      var init := segs[..m - 1];
      JoinRuns(init);
      assert JoinEach(segs) == JoinEach(init) + [Join(segs[m - 1])];
      JoinAppend(JoinEach(init), [Join(segs[m - 1])]);
      FlattenFirst(init);
      JoinAppend(Flatten(init), segs[m - 1]);
    } else if |segs| == 1 {
      assert JoinEach(segs) == [Join(segs[0])];
      assert Flatten(segs) == segs[0];
    }
  }

  /** The text of each run: `currentLines.join('\n')`. */
  function JoinEach(segs: seq<seq<string>>): (texts: seq<string>)
    ensures |texts| == |segs|
    decreases |segs|
  {
    if segs == [] then [] else JoinEach(segs[..|segs| - 1]) + [Join(segs[|segs| - 1])]
  }

  lemma {:induction false} JoinEachAt(segs: seq<seq<string>>, k: nat)
    requires k < |segs|
    ensures JoinEach(segs)[k] == Join(segs[k])
    decreases |segs|
  {
    if k < |segs| - 1 {
      JoinEachAt(segs[..|segs| - 1], k);
    }
  }

  /** Every line of every run is a line of the flattening. */
  lemma {:induction false} FlattenContains(segs: seq<seq<string>>, k: nat)
    requires k < |segs|
    ensures forall j :: 0 <= j < |segs[k]| ==> segs[k][j] in Flatten(segs)
    decreases |segs|
  {
    var m := |segs|;
    assert Flatten(segs) == Flatten(segs[..m - 1]) + segs[m - 1];
    if k < m - 1 {
      FlattenContains(segs[..m - 1], k);
    } else {
      forall j | 0 <= j < |segs[k]| ensures segs[k][j] in Flatten(segs) {
        assert Flatten(segs)[|Flatten(segs[..m - 1])| + j] == segs[k][j];
      }
    }
  }

  /** Joining the runs' texts gives back the joined lines from the first
      header on: the lines before it belong to no run. */
  lemma RunsRoundTrip(lines: seq<string>)
    requires FirstWhere(lines, IsHeader) < |lines|
    ensures Join(JoinEach(Runs(lines))) == Join(lines[FirstWhere(lines, IsHeader)..])
  {
    var h := FirstWhere(lines, IsHeader);
    SegmentsAreRuns(lines[h..]);
    JoinRuns(Segments(lines[h..]));
  }

  /** A run is a header-led run of the lines, and holds only lines of them. */
  lemma RunOfLines(lines: seq<string>, k: nat)
    requires k < |Runs(lines)|
    ensures IsSegment(Runs(lines)[k])
    ensures forall j :: 0 <= j < |Runs(lines)[k]| ==> Runs(lines)[k][j] in lines
  {
    var h := FirstWhere(lines, IsHeader);
    SegmentsAreRuns(lines[h..]);
    FlattenContains(Runs(lines), k);
    assert forall line :: line in lines[h..] ==> line in lines;
  }

  /** The value the last assigning line gives, `None` if no line assigns. */
  function LastSome<T>(ls: seq<string>, f: string -> Option<T>): Option<T>
    decreases |ls|
  {
    if ls == [] then None
    else if f(ls[|ls| - 1]).Some? then f(ls[|ls| - 1])
    else LastSome(ls[..|ls| - 1], f)
  }

  /** Line `j` assigns and no later line does. */
  ghost predicate IsLastAssignment<T>(ls: seq<string>, f: string -> Option<T>, j: int) {
    0 <= j < |ls| && f(ls[j]).Some? &&
    forall k :: j < k < |ls| ==> f(ls[k]).None?
  }

  /** "Last assignment wins", stated without the scan: no value exactly when
      no line assigns, and otherwise the value of the last assigning line. */
  lemma {:induction false} LastAssignmentWins<T>(ls: seq<string>, f: string -> Option<T>)
    ensures LastSome(ls, f).None? <==> forall j :: 0 <= j < |ls| ==> f(ls[j]).None?
    ensures forall j :: IsLastAssignment(ls, f, j) ==> LastSome(ls, f) == f(ls[j])
    ensures LastSome(ls, f).Some? ==> exists j :: IsLastAssignment(ls, f, j)
    decreases |ls|
  {
    if ls != [] {
      var n := |ls|;
      var init := ls[..n - 1];
      LastAssignmentWins(init, f);
      if f(ls[n - 1]).Some? {
        LastAssignmentIsFinalLine(ls, f);
      } else {
        LastAssignmentIsEarlier(ls, f);
      }
    }
  }

  lemma LastAssignmentIsFinalLine<T>(ls: seq<string>, f: string -> Option<T>)
    requires |ls| >= 1 && f(ls[|ls| - 1]).Some?
    ensures LastSome(ls, f) == f(ls[|ls| - 1])
    ensures IsLastAssignment(ls, f, |ls| - 1)
    ensures forall j :: IsLastAssignment(ls, f, j) ==> j == |ls| - 1
  {
  }

  lemma LastAssignmentIsEarlier<T>(ls: seq<string>, f: string -> Option<T>)
    requires |ls| >= 1 && f(ls[|ls| - 1]).None?
    requires var init := ls[..|ls| - 1];
      (LastSome(init, f).None? <==> forall j :: 0 <= j < |init| ==> f(init[j]).None?) &&
      (forall j :: IsLastAssignment(init, f, j) ==> LastSome(init, f) == f(init[j])) &&
      (LastSome(init, f).Some? ==> exists j :: IsLastAssignment(init, f, j))
    ensures LastSome(ls, f).None? <==> forall j :: 0 <= j < |ls| ==> f(ls[j]).None?
    ensures forall j :: IsLastAssignment(ls, f, j) ==> LastSome(ls, f) == f(ls[j])
    ensures LastSome(ls, f).Some? ==> exists j :: IsLastAssignment(ls, f, j)
  {
    var init := ls[..|ls| - 1];
    assert forall k :: 0 <= k < |init| ==> init[k] == ls[k];
    forall j | IsLastAssignment(ls, f, j) ensures IsLastAssignment(init, f, j) {
    }
    if LastSome(init, f).Some? {
      var j :| IsLastAssignment(init, f, j);
      assert IsLastAssignment(ls, f, j);
    }
  }
}
