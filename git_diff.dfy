/** `DiffFactory.create` (src/Diff/GitDiff.ts): one pass over the lines of a
    `git diff` patch that builds one `DiffObject` per `diff --git` header.

    This version recognises four operation markers (`deleted file`,
    `new file`, `copy from`, `rename from`), keeps the `--- ` path in
    `oldFileName`, and removes a leading `a/` from the `+++ ` path. */
module GitDiff {
  import opened Text
  import opened Optional
  import opened Segmentation
  import opened LineScan
  import HeaderPattern

  datatype GitOperation = NEW | DELETED | RENAMED | MODIFIED | COPIED

  /** `operation` and `oldFileName` are optional properties: `None` is an
      absent property. */
  datatype DiffObject = DiffObject(
    operation: Option<GitOperation>,
    fileName: string,
    oldFileName: Option<string>,
    diff: string,
    isBinary: bool)

  const DevNull: string := "/dev/null"

  /** The branch of the `if/else if` chain of `create` that a line takes. */
  datatype LineKind =
    | Header
    | Marker(op: GitOperation)
    | OldPath(path: string)
    | NewPath(path: string)
    | BinaryNote
    | Other

  /** The chain's tests, in its order; the first that holds decides. */
  function Classify(line: string): LineKind {
    if IsHeader(line) then Header
    else if StartsWith(line, "deleted file") then Marker(DELETED)
    else if StartsWith(line, "new file") then Marker(NEW)
    else if StartsWith(line, "copy from") then Marker(COPIED)
    else if StartsWith(line, "rename from") then Marker(RENAMED)
    else if StartsWith(line, "--- ") then OldPath(line[4..])
    else if StartsWith(line, "+++ ") then NewPath(line[4..])
    else if StartsWith(line, "Binary") then BinaryNote
    else Other
  }

  /** The lines whose branch writes a field of `currentObj!`; before the
      first header `currentObj` is `null` and such a line throws. */
  predicate Dereferences(line: string) {
    match Classify(line)
    case Marker(_) => true
    case OldPath(p) => p != DevNull
    case NewPath(p) => p != DevNull
    case BinaryNote => true
    case _ => false
  }

  /** The record a header line opens. */
  function Open(header: string): DiffObject {
    DiffObject(None, HeaderPattern.FileName(header), None, "", false)
  }

  /** The prefix the `+++ ` branch removes from its path: `a/`, as written. */
  const PlusPrefix: string := "a/"

  /** The effect of one non-header line on the open record, when the `+++ `
      branch removes `plusPrefix` from its path. */
  function Absorb(plusPrefix: string, obj: DiffObject, line: string): DiffObject {
    match Classify(line)
    case Header => obj // a header line never reaches here inside a run
    case Marker(op) => obj.(operation := Some(op))
    case OldPath(p) => if p == DevNull then obj else obj.(oldFileName := Some(StripPrefix(p, "a/")))
    case NewPath(p) => if p == DevNull then obj else obj.(fileName := StripPrefix(p, plusPrefix))
    case BinaryNote => obj.(isBinary := true)
    case Other => obj
  }

  /** `currentObj.diff = currentLines.join('\n')` */
  function WithText(obj: DiffObject, text: string): DiffObject {
    obj.(diff := text)
  }

  /** The loop's choices when the `+++ ` branch removes `plusPrefix`. */
  function Stripping(plusPrefix: string): Dialect<DiffObject> {
    Dialect(Open, (obj, line) => Absorb(plusPrefix, obj, line), Dereferences, WithText)
  }

  /** This version's choices in the loop shared with `GitDiffParser.parse`. */
  const Version: Dialect<DiffObject> := Stripping(PlusPrefix)

  /** What `create(diff)` returns, described run by run. */
  function DiffObjects(diff: string): Outcome<DiffObject> {
    Segmented(Version, Split(diff))
  }

  /** `DiffFactory.create`, statement by statement. */
  method Create(diff: string) returns (result: Outcome<DiffObject>)
    ensures result == DiffObjects(diff)
  {
    var diffList: seq<DiffObject> := [];
    var diffLines := Split(diff);
    var currentObj: Option<DiffObject> := None;
    var currentLines: seq<string> := [];

    for i := 0 to |diffLines|
      invariant Scan(Version, diffLines[..i]) == Scanning(diffList, currentObj, currentLines)
    {
      var line := diffLines[i];
      ScanSnoc(Version, diffLines, i);
      if StartsWith(line, "diff --git") {
        if currentObj != None {
          diffList := diffList + [currentObj.value.(diff := Join(currentLines))];
          currentLines := [];
        }
        currentObj := Some(DiffObject(None, HeaderPattern.FileName(line), None, "", false));
        currentLines := [line];
      } else {
        var thrown;
        currentObj, thrown := UpdateCurrent(currentObj, line);
        if thrown {
          ThrowEndsScan(Version, diffLines, i + 1);
          result := NullDereference(i);
          ScanIsSegmentation(Version, diffLines);
          return;
        }
        currentLines := currentLines + [line];
      }
    }

    assert diffLines[..|diffLines|] == diffLines;
    if currentObj != None {
      diffList := diffList + [currentObj.value.(diff := Join(currentLines))];
    }
    result := Parsed(diffList);
    ScanIsSegmentation(Version, diffLines);
  }

  /** The branches of the loop body of `create` after the header test, for a
      line that is not a header: each writes one field of `currentObj!`, and
      `thrown` reports the dereference of a `null` current record. */
  method UpdateCurrent(currentObj: Option<DiffObject>, line: string)
    returns (next: Option<DiffObject>, thrown: bool)
    requires !IsHeader(line)
    ensures thrown <==> currentObj.None? && Dereferences(line)
    ensures !thrown ==> next == match currentObj
                               case None => None
                               case Some(obj) => Some(Absorb(PlusPrefix, obj, line))
  {
    next, thrown := currentObj, false;
    if StartsWith(line, "deleted file") {
      if currentObj == None { return None, true; }
      next := Some(currentObj.value.(operation := Some(DELETED)));
    } else if StartsWith(line, "new file") {
      if currentObj == None { return None, true; }
      next := Some(currentObj.value.(operation := Some(NEW)));
    } else if StartsWith(line, "copy from") {
      if currentObj == None { return None, true; }
      next := Some(currentObj.value.(operation := Some(COPIED)));
    } else if StartsWith(line, "rename from") {
      if currentObj == None { return None, true; }
      next := Some(currentObj.value.(operation := Some(RENAMED)));
    } else if StartsWith(line, "--- ") {
      var localFilePath := line[4..];
      if localFilePath != "/dev/null" {
        if currentObj == None { return None, true; }
        var name := if StartsWith(localFilePath, "a/") then localFilePath[2..] else localFilePath;
        next := Some(currentObj.value.(oldFileName := Some(name)));
      }
    } else if StartsWith(line, "+++ ") {
      var localFilePath := line[4..];
      if localFilePath != "/dev/null" {
        if currentObj == None { return None, true; }
        var name := if StartsWith(localFilePath, "a/") then localFilePath[2..] else localFilePath;
        next := Some(currentObj.value.(fileName := name));
      }
    } else if StartsWith(line, "Binary") {
      if currentObj == None { return None, true; }
      next := Some(currentObj.value.(isBinary := true));
    }
  }

  /** The prefixes the chain tests are pairwise exclusive, so each branch is
      taken exactly when its own test holds: the order of the chain does not
      matter, and no line yields `MODIFIED`. */
  lemma ClassifyByPrefix(line: string)
    ensures Classify(line) == Header <==> StartsWith(line, "diff --git")
    ensures Classify(line) == Marker(DELETED) <==> StartsWith(line, "deleted file")
    ensures Classify(line) == Marker(NEW) <==> StartsWith(line, "new file")
    ensures Classify(line) == Marker(COPIED) <==> StartsWith(line, "copy from")
    ensures Classify(line) == Marker(RENAMED) <==> StartsWith(line, "rename from")
    ensures Classify(line) != Marker(MODIFIED)
    ensures Classify(line).OldPath? <==> StartsWith(line, "--- ")
    ensures Classify(line).NewPath? <==> StartsWith(line, "+++ ")
    ensures Classify(line) == BinaryNote <==> StartsWith(line, "Binary")
  {
    if StartsWith(line, "deleted file") {
      assert line[1] == 'e';
    }
    if |line| > 0 {
      PrefixFirstChar(line);
    }
  }

  /** Which of the tested prefixes a line can carry is decided by its first
      two characters. */
  lemma PrefixFirstChar(line: string)
    requires |line| > 0
    ensures StartsWith(line, "diff --git") ==> line[0] == 'd' && line[1] == 'i'
    ensures StartsWith(line, "deleted file") ==> line[0] == 'd' && line[1] == 'e'
    ensures StartsWith(line, "new file") ==> line[0] == 'n'
    ensures StartsWith(line, "copy from") ==> line[0] == 'c'
    ensures StartsWith(line, "rename from") ==> line[0] == 'r'
    ensures StartsWith(line, "--- ") ==> line[0] == '-'
    ensures StartsWith(line, "+++ ") ==> line[0] == '+'
    ensures StartsWith(line, "Binary") ==> line[0] == 'B'
  {
  }

  /** The operation a line sets, if it sets one. */
  function MarkerOp(line: string): Option<GitOperation> {
    match Classify(line)
    case Marker(op) => Some(op)
    case _ => None
  }

  /** The `oldFileName` a line sets, if it sets one. */
  function OldName(line: string): Option<string> {
    match Classify(line)
    case OldPath(p) => if p == DevNull then None else Some(StripPrefix(p, "a/"))
    case _ => None
  }

  /** The `fileName` a line sets, if it sets one, when the `+++ ` branch
      removes `plusPrefix`. */
  function NewName(plusPrefix: string): string -> Option<string> {
    line =>
      match Classify(line)
      case NewPath(p) => if p == DevNull then None else Some(StripPrefix(p, plusPrefix))
      case _ => None
  }

  /** `Some(true)` on a line that sets `isBinary`. */
  function BinaryFlag(line: string): Option<bool> {
    if Classify(line) == BinaryNote then Some(true) else None
  }

  /** Each field of the open record holds what the last line assigning it
      wrote, and the header's value when no line did. */
  lemma {:induction false} FieldsAreLastAssignments(plusPrefix: string, seg: seq<string>)
    requires |seg| >= 1 && IsHeader(seg[0])
    ensures var r := Fields(Stripping(plusPrefix), seg);
      r.operation == LastSome(seg, MarkerOp) &&
      r.oldFileName == LastSome(seg, OldName) &&
      r.fileName == (match LastSome(seg, NewName(plusPrefix))
                     case Some(name) => name
                     case None => HeaderPattern.FileName(seg[0])) &&
      r.isBinary == LastSome(seg, BinaryFlag).Some?
    decreases |seg|
  {
    var n := |seg|;
    if n == 1 {
      assert Classify(seg[0]) == Header;
      assert seg[..0] == [];
    } else {
      var init := seg[..n - 1];
      assert init[0] == seg[0];
      FieldsAreLastAssignments(plusPrefix, init);
      AbsorbByField(plusPrefix, Fields(Stripping(plusPrefix), init), seg[n - 1]);
    }
  }

  /** The effect of one line, field by field. */
  lemma AbsorbByField(plusPrefix: string, obj: DiffObject, line: string)
    ensures Stripping(plusPrefix).absorb(obj, line) == Absorb(plusPrefix, obj, line)
    ensures var r := Absorb(plusPrefix, obj, line);
      r.operation == (if MarkerOp(line).Some? then MarkerOp(line) else obj.operation) &&
      r.oldFileName == (if OldName(line).Some? then OldName(line) else obj.oldFileName) &&
      r.fileName == (match NewName(plusPrefix)(line) case Some(name) => name case None => obj.fileName) &&
      r.isBinary == (BinaryFlag(line).Some? || obj.isBinary)
  {
  }

  /** The sealed record of a run is its open record with the run's text. */
  lemma SealedIsFieldsWithText(plusPrefix: string, seg: seq<string>)
    requires |seg| >= 1
    ensures Sealed(Stripping(plusPrefix), seg) == Fields(Stripping(plusPrefix), seg).(diff := Join(seg))
  {
  }

  /** `operation` is absent exactly when no line of the run is an operation
      marker, and otherwise is the operation of the last marker; it is never
      `MODIFIED`. */
  lemma OperationIsLastMarker(seg: seq<string>)
    requires |seg| >= 1 && IsHeader(seg[0])
    ensures var op := Sealed(Version, seg).operation;
      (op.None? <==> forall j :: 0 <= j < |seg| ==> MarkerOp(seg[j]).None?) &&
      (forall j :: IsLastAssignment(seg, MarkerOp, j) ==> op == MarkerOp(seg[j])) &&
      op != Some(MODIFIED)
  {
    SealedIsFieldsWithText(PlusPrefix, seg);
    FieldsAreLastAssignments(PlusPrefix, seg);
    LastAssignmentWins(seg, MarkerOp);
    if LastSome(seg, MarkerOp).Some? {
      var j :| IsLastAssignment(seg, MarkerOp, j);
      ClassifyByPrefix(seg[j]);
    }
  }

  /** `oldFileName` is absent exactly when no line of the run is a `--- `
      line with a path other than `/dev/null`, and otherwise is the path of
      the last such line, without a leading `a/`. */
  lemma OldFileNameIsLastMinusPath(seg: seq<string>)
    requires |seg| >= 1 && IsHeader(seg[0])
    ensures var previous := Sealed(Version, seg).oldFileName;
      (previous.None? <==> forall j :: 0 <= j < |seg| ==> OldName(seg[j]).None?) &&
      (forall j :: IsLastAssignment(seg, OldName, j) ==> previous == OldName(seg[j]))
  {
    SealedIsFieldsWithText(PlusPrefix, seg);
    FieldsAreLastAssignments(PlusPrefix, seg);
    LastAssignmentWins(seg, OldName);
  }

  /** `fileName` is the path of the last `+++ ` line other than `/dev/null`
      (with a leading `plusPrefix` removed), and the header's name when there
      is none. */
  lemma FileNameIsLastPlusPath(plusPrefix: string, seg: seq<string>)
    requires |seg| >= 1 && IsHeader(seg[0])
    ensures var name := Sealed(Stripping(plusPrefix), seg).fileName;
      ((forall j :: 0 <= j < |seg| ==> NewName(plusPrefix)(seg[j]).None?) ==> name == HeaderPattern.FileName(seg[0])) &&
      (forall j :: IsLastAssignment(seg, NewName(plusPrefix), j) ==> Some(name) == NewName(plusPrefix)(seg[j]))
  {
    SealedIsFieldsWithText(plusPrefix, seg);
    FieldsAreLastAssignments(plusPrefix, seg);
    LastAssignmentWins(seg, NewName(plusPrefix));
  }

  /** `isBinary` holds exactly when some line of the run starts with `Binary`. */
  lemma BinaryIffBinaryLine(seg: seq<string>)
    requires |seg| >= 1 && IsHeader(seg[0])
    ensures Sealed(Version, seg).isBinary <==>
      exists j :: 0 <= j < |seg| && StartsWith(seg[j], "Binary")
  {
    SealedIsFieldsWithText(PlusPrefix, seg);
    FieldsAreLastAssignments(PlusPrefix, seg);
    LastAssignmentWins(seg, BinaryFlag);
    forall j | 0 <= j < |seg| ensures BinaryFlag(seg[j]).Some? <==> StartsWith(seg[j], "Binary") {
      ClassifyByPrefix(seg[j]);
    }
  }

  /** A `+++ b/...` line sets `fileName` to a path that still begins with
      `b/`: the branch removes `a/`, not `b/`. */
  lemma PlusPathKeepsBPrefix(path: string)
    ensures NewName(PlusPrefix)("+++ b/" + path) == Some("b/" + path)
  {
    var line := "+++ b/" + path;
    assert line[..4] == "+++ " && line[4..] == "b/" + path;
    PrefixFirstChar(line);
    assert line[0] == '+';
    assert ("b/" + path)[0] != DevNull[0];
    assert ("b/" + path)[..2] != "a/";
  }

  /** What `create(diff)` returns once the `+++ ` branch removes `b/`, the
      behaviour its tests expect. */
  function IntendedDiffObjects(diff: string): Outcome<DiffObject> {
    Segmented(Stripping("b/"), Split(diff))
  }

  /** With `b/` removed, a `+++ b/...` line sets `fileName` to the bare path. */
  lemma IntendedPlusPathDropsBPrefix(path: string)
    ensures NewName("b/")("+++ b/" + path) == Some(path)
  {
    var line := "+++ b/" + path;
    assert line[..4] == "+++ " && line[4..] == "b/" + path;
    PrefixFirstChar(line);
    assert line[0] == '+';
    assert ("b/" + path)[0] != DevNull[0];
    assert ("b/" + path)[..2] == "b/";
  }

  /** Removing `b/` rather than `a/` changes `fileName` and nothing else: the
      same patches throw, at the same line, and otherwise the records agree
      in number and in every other field. */
  lemma IntendedDiffersOnlyInFileName(diff: string)
    ensures DiffObjects(diff).NullDereference? ==> IntendedDiffObjects(diff) == DiffObjects(diff)
    ensures DiffObjects(diff).Parsed? ==> IntendedDiffObjects(diff).Parsed?
    ensures DiffObjects(diff).Parsed? ==>
              var rs, fixed := DiffObjects(diff).records, IntendedDiffObjects(diff).records;
              |fixed| == |rs| && forall k :: 0 <= k < |rs| ==> fixed[k] == rs[k].(fileName := fixed[k].fileName)
  {
    var lines := Split(diff);
    assert Stripping("b/").dereferences == Version.dereferences;
    if DiffObjects(diff).Parsed? {
      RecordsFollowHeaders(Version, lines);
      RecordsFollowHeaders(Stripping("b/"), lines);
      var rs, fixed := DiffObjects(diff).records, IntendedDiffObjects(diff).records;
      forall k | 0 <= k < |rs| ensures fixed[k] == rs[k].(fileName := fixed[k].fileName) {
        var run := Runs(lines)[k];
        RunOfLines(lines, k);
        SealedIsFieldsWithText(PlusPrefix, run);
        SealedIsFieldsWithText("b/", run);
        FieldsAreLastAssignments(PlusPrefix, run);
        FieldsAreLastAssignments("b/", run);
      }
    }
  }

  /** A `+++ ` line with nothing after the prefix sets an empty `fileName`:
      only `/dev/null` is exempt. */
  lemma EmptyPlusPathEmptiesName()
    ensures NewName(PlusPrefix)("+++ ") == Some("")
  {
    PrefixFirstChar("+++ ");
  }

  /** A patch whose first line writes a field (an operation marker, a
      `Binary` line, a path line other than `/dev/null`) throws on that line,
      since no record is open yet; its other lines make no difference. */
  lemma FieldLineFirstThrows(diff: string)
    requires Dereferences(Split(diff)[0])
    ensures DiffObjects(diff) == NullDereference(0)
  {
    ThrowsAt(Version, Split(diff), 0);
  }

  /** The texts of the records, in order. */
  function Texts(rs: seq<DiffObject>): (texts: seq<string>)
    ensures |texts| == |rs| && forall k :: 0 <= k < |rs| ==> texts[k] == rs[k].diff
  {
    seq(|rs|, k requires 0 <= k < |rs| => rs[k].diff)
  }

  /** `create('')` returns an empty list. */
  lemma EmptyDiffGivesNoRecords()
    ensures DiffObjects("") == Parsed([])
  {
    EmptyResult(Version, Split(""));
  }

  /** One record per `diff --git` line, in order; each record is the sealed
      run its header opens, and its text starts with that header. */
  lemma RecordsFollowHeaderLines(diff: string)
    requires DiffObjects(diff).Parsed?
    ensures var rs, lines := DiffObjects(diff).records, Split(diff);
      |rs| == |HeaderLines(lines)| &&
      forall k :: 0 <= k < |rs| ==>
        rs[k] == Sealed(Version, Runs(lines)[k]) && StartsWith(rs[k].diff, HeaderLines(lines)[k])
  {
    var lines := Split(diff);
    RecordsFollowHeaders(Version, lines);
    var rs := DiffObjects(diff).records;
    forall k | 0 <= k < |rs| ensures StartsWith(rs[k].diff, HeaderLines(lines)[k]) {
      SealedIsFieldsWithText(PlusPrefix, Runs(lines)[k]);
      JoinStartsWithFirst(Runs(lines)[k]);
    }
  }

  /** The text of record `k` splits back into exactly the lines of its run: a
      header line followed by lines none of which is a header. */
  lemma RecordTextIsRun(diff: string, k: nat)
    requires DiffObjects(diff).Parsed? && k < |DiffObjects(diff).records|
    ensures var text := DiffObjects(diff).records[k].diff;
      Split(text) == Runs(Split(diff))[k] && IsSegment(Split(text))
  {
    var lines := Split(diff);
    var runs := Runs(lines);
    RecordsFollowHeaders(Version, lines);
    SealedIsFieldsWithText(PlusPrefix, runs[k]);
    RunOfLines(lines, k);
    SplitJoin(runs[k]);
  }

  /** Joined with line feeds, the records' texts give back the patch from
      its first header on: the lines before it belong to no record. */
  lemma RecordsCoverFromFirstHeader(diff: string)
    requires DiffObjects(diff).Parsed?
    requires FirstWhere(Split(diff), IsHeader) < |Split(diff)|
    ensures Join(Texts(DiffObjects(diff).records)) == Join(Split(diff)[FirstWhere(Split(diff), IsHeader)..])
  {
    var lines := Split(diff);
    var runs := Runs(lines);
    var rs := DiffObjects(diff).records;
    RecordsFollowHeaders(Version, lines);
    forall k | 0 <= k < |rs| ensures Texts(rs)[k] == JoinEach(runs)[k] {
      SealedIsFieldsWithText(PlusPrefix, runs[k]);
      JoinEachAt(runs, k);
    }
    assert Texts(rs) == JoinEach(runs);
    RunsRoundTrip(lines);
  }

  /** A patch that starts with a header comes back unchanged when the
      records' texts are joined with line feeds. */
  lemma CreateRoundTrip(diff: string)
    requires StartsWith(diff, "diff --git")
    ensures DiffObjects(diff).Parsed?
    ensures Join(Texts(DiffObjects(diff).records)) == diff
  {
    var lines := Split(diff);
    FirstLineStartsWith(diff, "diff --git");
    assert FirstWhere(lines, IsHeader) == 0;
    assert lines[0..] == lines;
    RecordsCoverFromFirstHeader(diff);
    JoinSplit(diff);
  }
}
