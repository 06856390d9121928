/** `GitDiffParser.parse` (src/Tools/GitDiffParser.ts): the same loop as
    `DiffFactory.create`, with its own choices. It recognises three operation
    markers (`new file mode`, `deleted file mode`, `rename from`), keeps no
    old file name, and lets both path lines write `fileName`: a `--- ` path
    loses a leading `a/`, a `+++ ` path a leading `b/`. */
module GitDiffParser {
  import opened Text
  import opened Optional
  import opened Segmentation
  import opened LineScan
  import HeaderPattern

  datatype GitOperation = NEW | DELETED | RENAMED | MODIFIED

  /** `operation` is an optional property: `None` is an absent property. */
  datatype GitDiff = GitDiff(
    operation: Option<GitOperation>,
    fileName: string,
    diff: string,
    isBinary: bool)

  const DevNull: string := "/dev/null"

  /** The branch of the `if/else if` chain of `parse` that a line takes. */
  datatype LineKind =
    | Header
    | Marker(op: GitOperation)
    | OldPath(path: string)
    | NewPath(path: string)
    | BinaryNote
    | Other

  /** The chain's tests, in its order; the first that holds decides. */
  function Classify(line: string): LineKind {
    if IsHeader(line) then Header
    else if StartsWith(line, "new file mode") then Marker(NEW)
    else if StartsWith(line, "deleted file mode") then Marker(DELETED)
    else if StartsWith(line, "rename from") then Marker(RENAMED)
    else if StartsWith(line, "--- ") then OldPath(line[4..])
    else if StartsWith(line, "+++ ") then NewPath(line[4..])
    else if StartsWith(line, "Binary") then BinaryNote
    else Other
  }

  /** The lines whose branch writes a field of `currentDiffObject!`; before
      the first header the current record is `null` and such a line throws. */
  predicate Dereferences(line: string) {
    match Classify(line)
    case Marker(_) => true
    case OldPath(p) => p != DevNull
    case NewPath(p) => p != DevNull
    case BinaryNote => true
    case _ => false
  }

  /** The record a header line opens. */
  function Open(header: string): GitDiff {
    GitDiff(None, HeaderPattern.FileName(header), "", false)
  }

  /** The effect of one non-header line on the open record. */
  function Absorb(obj: GitDiff, line: string): GitDiff {
    match Classify(line)
    case Header => obj // a header line never reaches here inside a run
    case Marker(op) => obj.(operation := Some(op))
    case OldPath(p) => if p == DevNull then obj else obj.(fileName := StripPrefix(p, "a/"))
    case NewPath(p) => if p == DevNull then obj else obj.(fileName := StripPrefix(p, "b/"))
    case BinaryNote => obj.(isBinary := true)
    case Other => obj
  }

  /** `currentDiffObject.diff = currentDiffLines.join("\n")` */
  function WithText(obj: GitDiff, text: string): GitDiff {
    obj.(diff := text)
  }

  /** This version's choices in the loop shared with `DiffFactory.create`. */
  const Version: Dialect<GitDiff> := Dialect(Open, Absorb, Dereferences, WithText)

  /** What `parse(diff)` returns, described run by run. */
  function GitDiffs(diff: string): Outcome<GitDiff> {
    Segmented(Version, Split(diff))
  }

  /** `GitDiffParser.parse`, statement by statement. */
  method Parse(diff: string) returns (result: Outcome<GitDiff>)
    ensures result == GitDiffs(diff)
  {
    var diffList: seq<GitDiff> := [];
    var diffLines := Split(diff);
    var currentDiffObject: Option<GitDiff> := None;
    var currentDiffLines: seq<string> := [];

    for i := 0 to |diffLines|
      invariant Scan(Version, diffLines[..i]) == Scanning(diffList, currentDiffObject, currentDiffLines)
    {
      var line := diffLines[i];
      ScanSnoc(Version, diffLines, i);
      if StartsWith(line, "diff --git") {
        if currentDiffObject != None {
          diffList := diffList + [currentDiffObject.value.(diff := Join(currentDiffLines))];
        }
        var fileName := HeaderPattern.FileName(line);
        currentDiffObject := Some(GitDiff(None, fileName, "", false));
        currentDiffLines := [line];
      } else {
        var thrown;
        currentDiffObject, thrown := UpdateCurrent(currentDiffObject, line);
        if thrown {
          ThrowEndsScan(Version, diffLines, i + 1);
          result := NullDereference(i);
          ScanIsSegmentation(Version, diffLines);
          return;
        }
        currentDiffLines := currentDiffLines + [line];
      }
    }

    assert diffLines[..|diffLines|] == diffLines;
    if currentDiffObject != None {
      diffList := diffList + [currentDiffObject.value.(diff := Join(currentDiffLines))];
    }
    result := Parsed(diffList);
    ScanIsSegmentation(Version, diffLines);
  }

  /** The branches of the loop body of `parse` after the header test, for a
      line that is not a header: each writes one field of
      `currentDiffObject!`, and `thrown` reports the dereference of a `null`
      current record. */
  method UpdateCurrent(currentDiffObject: Option<GitDiff>, line: string)
    returns (next: Option<GitDiff>, thrown: bool)
    requires !IsHeader(line)
    ensures thrown <==> currentDiffObject.None? && Dereferences(line)
    ensures !thrown ==> next == match currentDiffObject
                               case None => None
                               case Some(obj) => Some(Absorb(obj, line))
  {
    next, thrown := currentDiffObject, false;
    if StartsWith(line, "new file mode") {
      if currentDiffObject == None { return None, true; }
      next := Some(currentDiffObject.value.(operation := Some(NEW)));
    } else if StartsWith(line, "deleted file mode") {
      if currentDiffObject == None { return None, true; }
      next := Some(currentDiffObject.value.(operation := Some(DELETED)));
    } else if StartsWith(line, "rename from") {
      if currentDiffObject == None { return None, true; }
      next := Some(currentDiffObject.value.(operation := Some(RENAMED)));
    } else if StartsWith(line, "--- ") {
      var filePath := line[4..];
      if filePath != "/dev/null" {
        if currentDiffObject == None { return None, true; }
        var name := if StartsWith(filePath, "a/") then filePath[2..] else filePath;
        next := Some(currentDiffObject.value.(fileName := name));
      }
    } else if StartsWith(line, "+++ ") {
      var filePath := line[4..];
      if filePath != "/dev/null" {
        if currentDiffObject == None { return None, true; }
        var name := if StartsWith(filePath, "b/") then filePath[2..] else filePath;
        next := Some(currentDiffObject.value.(fileName := name));
      }
    } else if StartsWith(line, "Binary") {
      if currentDiffObject == None { return None, true; }
      next := Some(currentDiffObject.value.(isBinary := true));
    }
  }

  /** The prefixes the chain tests are pairwise exclusive, so each branch is
      taken exactly when its own test holds: the order of the chain does not
      matter, and no line yields `MODIFIED`. */
  lemma ClassifyByPrefix(line: string)
    ensures Classify(line) == Header <==> StartsWith(line, "diff --git")
    ensures Classify(line) == Marker(NEW) <==> StartsWith(line, "new file mode")
    ensures Classify(line) == Marker(DELETED) <==> StartsWith(line, "deleted file mode")
    ensures Classify(line) == Marker(RENAMED) <==> StartsWith(line, "rename from")
    ensures Classify(line) != Marker(MODIFIED)
    ensures Classify(line).OldPath? <==> StartsWith(line, "--- ")
    ensures Classify(line).NewPath? <==> StartsWith(line, "+++ ")
    ensures Classify(line) == BinaryNote <==> StartsWith(line, "Binary")
  {
    if |line| > 0 {
      PrefixFirstChars(line);
    }
  }

  /** Which of the tested prefixes a line can carry is decided by its first
      two characters. */
  lemma PrefixFirstChars(line: string)
    requires |line| > 0
    ensures StartsWith(line, "diff --git") ==> line[0] == 'd' && line[1] == 'i'
    ensures StartsWith(line, "deleted file mode") ==> line[0] == 'd' && line[1] == 'e'
    ensures StartsWith(line, "new file mode") ==> line[0] == 'n'
    ensures StartsWith(line, "rename from") ==> line[0] == 'r'
    ensures StartsWith(line, "--- ") ==> line[0] == '-'
    ensures StartsWith(line, "+++ ") ==> line[0] == '+'
    ensures StartsWith(line, "Binary") ==> line[0] == 'B'
  {
  }

  /** The operation a line sets, if it sets one. */
  function MarkerOp(line: string): Option<GitOperation> {
    match Classify(line)
    case Marker(op) => Some(op)
    case _ => None
  }

  /** The `fileName` a line sets, if it sets one: both path lines do. */
  function PathName(line: string): Option<string> {
    match Classify(line)
    case OldPath(p) => if p == DevNull then None else Some(StripPrefix(p, "a/"))
    case NewPath(p) => if p == DevNull then None else Some(StripPrefix(p, "b/"))
    case _ => None
  }

  /** `Some(true)` on a line that sets `isBinary`. */
  function BinaryFlag(line: string): Option<bool> {
    if Classify(line) == BinaryNote then Some(true) else None
  }

  /** The effect of one line, field by field. */
  lemma AbsorbByField(obj: GitDiff, line: string)
    ensures Version.absorb(obj, line) == Absorb(obj, line)
    ensures var r := Absorb(obj, line);
      r.operation == (if MarkerOp(line).Some? then MarkerOp(line) else obj.operation) &&
      r.fileName == (match PathName(line) case Some(name) => name case None => obj.fileName) &&
      r.isBinary == (BinaryFlag(line).Some? || obj.isBinary)
  {
  }

  /** Each field of the open record holds what the last line assigning it
      wrote, and the header's value when no line did. */
  lemma {:induction false} FieldsAreLastAssignments(seg: seq<string>)
    requires |seg| >= 1 && IsHeader(seg[0])
    ensures var r := Fields(Version, seg);
      r.operation == LastSome(seg, MarkerOp) &&
      r.fileName == (match LastSome(seg, PathName)
                     case Some(name) => name
                     case None => HeaderPattern.FileName(seg[0])) &&
      r.isBinary == LastSome(seg, BinaryFlag).Some?
    decreases |seg|
  {
    var n := |seg|;
    if n == 1 {
      assert Classify(seg[0]) == Header;
      assert seg[..0] == [];
    } else {
      var init := seg[..n - 1];
      assert init[0] == seg[0];
      FieldsAreLastAssignments(init);
      AbsorbByField(Fields(Version, init), seg[n - 1]);
    }
  }

  /** The sealed record of a run is its open record with the run's text. */
  lemma SealedIsFieldsWithText(seg: seq<string>)
    requires |seg| >= 1
    ensures Sealed(Version, seg) == Fields(Version, seg).(diff := Join(seg))
  {
  }

  /** `operation` is absent exactly when no line of the run is an operation
      marker, and otherwise is the operation of the last marker; it is never
      `MODIFIED`. */
  lemma OperationIsLastMarker(seg: seq<string>)
    requires |seg| >= 1 && IsHeader(seg[0])
    ensures var op := Sealed(Version, seg).operation;
      (op.None? <==> forall j :: 0 <= j < |seg| ==> MarkerOp(seg[j]).None?) &&
      (forall j :: IsLastAssignment(seg, MarkerOp, j) ==> op == MarkerOp(seg[j])) &&
      op != Some(MODIFIED)
  {
    SealedIsFieldsWithText(seg);
    FieldsAreLastAssignments(seg);
    LastAssignmentWins(seg, MarkerOp);
    if LastSome(seg, MarkerOp).Some? {
      var j :| IsLastAssignment(seg, MarkerOp, j);
      ClassifyByPrefix(seg[j]);
    }
  }

  /** `fileName` is the path of the last `--- ` or `+++ ` line other than
      `/dev/null` (without its `a/` or `b/` respectively), and the header's
      name when there is none. */
  lemma FileNameIsLastPath(seg: seq<string>)
    requires |seg| >= 1 && IsHeader(seg[0])
    ensures var name := Sealed(Version, seg).fileName;
      ((forall j :: 0 <= j < |seg| ==> PathName(seg[j]).None?) ==> name == HeaderPattern.FileName(seg[0])) &&
      (forall j :: IsLastAssignment(seg, PathName, j) ==> Some(name) == PathName(seg[j]))
  {
    SealedIsFieldsWithText(seg);
    FieldsAreLastAssignments(seg);
    LastAssignmentWins(seg, PathName);
  }

  /** `isBinary` holds exactly when some line of the run starts with `Binary`. */
  lemma BinaryIffBinaryLine(seg: seq<string>)
    requires |seg| >= 1 && IsHeader(seg[0])
    ensures Sealed(Version, seg).isBinary <==>
      exists j :: 0 <= j < |seg| && StartsWith(seg[j], "Binary")
  {
    SealedIsFieldsWithText(seg);
    FieldsAreLastAssignments(seg);
    LastAssignmentWins(seg, BinaryFlag);
    forall j | 0 <= j < |seg| ensures BinaryFlag(seg[j]).Some? <==> StartsWith(seg[j], "Binary") {
      ClassifyByPrefix(seg[j]);
    }
  }

  /** A `+++ b/...` line sets `fileName` to the path without its `b/`. */
  lemma PlusPathDropsBPrefix(path: string)
    ensures PathName("+++ b/" + path) == Some(path)
  {
    var line := "+++ b/" + path;
    assert line[..4] == "+++ " && line[4..] == "b/" + path;
    PrefixFirstChars(line);
    assert ("b/" + path)[0] != DevNull[0];
    assert ("b/" + path)[..2] == "b/";
  }

  /** A `--- a/...` line sets `fileName` to the path without its `a/`. */
  lemma MinusPathDropsAPrefix(path: string)
    ensures PathName("--- a/" + path) == Some(path)
  {
    var line := "--- a/" + path;
    assert line[..4] == "--- " && line[4..] == "a/" + path;
    PrefixFirstChars(line);
    assert ("a/" + path)[0] != DevNull[0];
    assert ("a/" + path)[..2] == "a/";
  }

  /** A `+++ ` line with nothing after the prefix sets an empty `fileName`:
      only `/dev/null` is exempt. */
  lemma EmptyPlusPathEmptiesName()
    ensures PathName("+++ ") == Some("")
  {
    PrefixFirstChars("+++ ");
  }

  /** A patch whose first line writes a field (an operation marker, a
      `Binary` line, a path line other than `/dev/null`) throws on that line,
      since no record is open yet; its other lines make no difference. */
  lemma FieldLineFirstThrows(diff: string)
    requires Dereferences(Split(diff)[0])
    ensures GitDiffs(diff) == NullDereference(0)
  {
    ThrowsAt(Version, Split(diff), 0);
  }

  /** The texts of the records, in order. */
  function Texts(rs: seq<GitDiff>): (texts: seq<string>)
    ensures |texts| == |rs| && forall k :: 0 <= k < |rs| ==> texts[k] == rs[k].diff
  {
    seq(|rs|, k requires 0 <= k < |rs| => rs[k].diff)
  }

  /** `parse('')` returns an empty list. */
  lemma EmptyDiffGivesNoRecords()
    ensures GitDiffs("") == Parsed([])
  {
    EmptyResult(Version, Split(""));
  }

  /** One record per `diff --git` line, in order; each record is the sealed
      run its header opens, and its text starts with that header. */
  lemma RecordsFollowHeaderLines(diff: string)
    requires GitDiffs(diff).Parsed?
    ensures var rs, lines := GitDiffs(diff).records, Split(diff);
      |rs| == |HeaderLines(lines)| &&
      forall k :: 0 <= k < |rs| ==>
        rs[k] == Sealed(Version, Runs(lines)[k]) && StartsWith(rs[k].diff, HeaderLines(lines)[k])
  {
    var lines := Split(diff);
    RecordsFollowHeaders(Version, lines);
    var rs := GitDiffs(diff).records;
    forall k | 0 <= k < |rs| ensures StartsWith(rs[k].diff, HeaderLines(lines)[k]) {
      SealedIsFieldsWithText(Runs(lines)[k]);
      JoinStartsWithFirst(Runs(lines)[k]);
    }
  }

  /** The text of record `k` splits back into exactly the lines of its run: a
      header line followed by lines none of which is a header. */
  lemma RecordTextIsRun(diff: string, k: nat)
    requires GitDiffs(diff).Parsed? && k < |GitDiffs(diff).records|
    ensures var text := GitDiffs(diff).records[k].diff;
      Split(text) == Runs(Split(diff))[k] && IsSegment(Split(text))
  {
    var lines := Split(diff);
    var runs := Runs(lines);
    RecordsFollowHeaders(Version, lines);
    SealedIsFieldsWithText(runs[k]);
    RunOfLines(lines, k);
    SplitJoin(runs[k]);
  }

  /** Joined with line feeds, the records' texts give back the patch from
      its first header on: the lines before it belong to no record. */
  lemma RecordsCoverFromFirstHeader(diff: string)
    requires GitDiffs(diff).Parsed?
    requires FirstWhere(Split(diff), IsHeader) < |Split(diff)|
    ensures Join(Texts(GitDiffs(diff).records)) == Join(Split(diff)[FirstWhere(Split(diff), IsHeader)..])
  {
    var lines := Split(diff);
    var runs := Runs(lines);
    var rs := GitDiffs(diff).records;
    RecordsFollowHeaders(Version, lines);
    forall k | 0 <= k < |rs| ensures Texts(rs)[k] == JoinEach(runs)[k] {
      SealedIsFieldsWithText(runs[k]);
      JoinEachAt(runs, k);
    }
    assert Texts(rs) == JoinEach(runs);
    RunsRoundTrip(lines);
  }

  /** A patch that starts with a header comes back unchanged when the
      records' texts are joined with line feeds. */
  lemma ParseRoundTrip(diff: string)
    requires StartsWith(diff, "diff --git")
    ensures GitDiffs(diff).Parsed?
    ensures Join(Texts(GitDiffs(diff).records)) == diff
  {
    var lines := Split(diff);
    FirstLineStartsWith(diff, "diff --git");
    assert FirstWhere(lines, IsHeader) == 0;
    assert lines[0..] == lines;
    RecordsCoverFromFirstHeader(diff);
    JoinSplit(diff);
  }
}
