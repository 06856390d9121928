/** The loop both segmenters run over the split lines (src/Diff/GitDiff.ts:40-112
    and src/Tools/GitDiffParser.ts:15-76), parameterised by what the two
    versions do differently, together with a description of its result that
    does not mention the loop: one record per run of `Segmentation.Segments`,
    or a `null` dereference when a field-writing line comes before the first
    header. `ScanIsSegmentation` proves the two agree. */
module LineScan {
  import opened Text
  import opened Optional
  import opened Segmentation

  /** What a version decides: the record a header line opens, the effect of a
      later line on the open record, which later lines write a field of the
      record (and so throw while there is none), and how the finished record
      takes its text. */
  datatype Dialect<!R> = Dialect(
    open: string -> R,
    absorb: (R, string) -> R,
    dereferences: string -> bool,
    withText: (R, string) -> R)

  /** The open record after the loop has seen the lines of one run. */
  function Fields<R>(d: Dialect<R>, seg: seq<string>): R
    requires |seg| >= 1
    decreases |seg|
  {
    if |seg| == 1 then d.open(seg[0])
    else d.absorb(Fields(d, seg[..|seg| - 1]), seg[|seg| - 1])
  }

  lemma FieldsStep<R>(d: Dialect<R>, seg: seq<string>, line: string)
    requires |seg| >= 1
    ensures Fields(d, seg + [line]) == d.absorb(Fields(d, seg), line)
  {
    assert (seg + [line])[..|seg|] == seg;
  }

  /** The record pushed for a run: its fields, and as its text the run's lines
      joined with line feeds. */
  function Sealed<R>(d: Dialect<R>, seg: seq<string>): R
    requires |seg| >= 1
  {
    d.withText(Fields(d, seg), Join(seg))
  }

  /** One sealed record per run, in run order. */
  function Records<R>(d: Dialect<R>, segs: seq<seq<string>>): (rs: seq<R>)
    requires forall k :: 0 <= k < |segs| ==> |segs[k]| >= 1
    ensures |rs| == |segs|
    decreases |segs|
  {
    if segs == [] then [] else Records(d, segs[..|segs| - 1]) + [Sealed(d, segs[|segs| - 1])]
  }

  /** Record `k` is the sealed run `k`. */
  lemma {:induction false} RecordsAt<R>(d: Dialect<R>, segs: seq<seq<string>>, k: nat)
    requires forall k :: 0 <= k < |segs| ==> |segs[k]| >= 1
    requires k < |segs|
    ensures Records(d, segs)[k] == Sealed(d, segs[k])
    decreases |segs|
  {
    if k < |segs| - 1 {
      RecordsAt(d, segs[..|segs| - 1], k);
    }
  }

  /** The result described without the loop: the lines before the first
      header must not write a field (the first one that does is where the
      source throws); otherwise one record per run from the first header on. */
  function Segmented<R>(d: Dialect<R>, lines: seq<string>): Outcome<R> {
    var firstHeader := FirstWhere(lines, IsHeader);
    var fault := FirstWhere(lines, d.dereferences);
    if fault < firstHeader then NullDereference(fault)
    else Parsed(Records(d, Runs(lines)))
  }

  /** The loop's variables between two iterations (`diffList`, the current
      record or `null`, the current run's lines), or the index of the line
      at which it threw. */
  datatype ScanState<R> =
    | Scanning(diffList: seq<R>, current: Option<R>, currentLines: seq<string>)
    | Thrown(line: nat)

  /** One iteration of the loop, on the line with index `i`. */
  function Step<R>(d: Dialect<R>, st: ScanState<R>, line: string, i: nat): ScanState<R> {
    match st
    case Thrown(_) => st
    case Scanning(diffList, current, currentLines) =>
      if IsHeader(line) then
        var pushed := match current
                      case Some(obj) => diffList + [d.withText(obj, Join(currentLines))]
                      case None => diffList;
        Scanning(pushed, Some(d.open(line)), [line])
      else
        match current
        case None =>
          if d.dereferences(line) then Thrown(i)
          else Scanning(diffList, None, currentLines + [line])
        case Some(obj) => Scanning(diffList, Some(d.absorb(obj, line)), currentLines + [line])
  }

  /** The loop run over `lines` from its initial state. */
  function Scan<R>(d: Dialect<R>, lines: seq<string>): ScanState<R>
    decreases |lines|
  {
    if lines == [] then Scanning([], None, [])
    else Step(d, Scan(d, lines[..|lines| - 1]), lines[|lines| - 1], |lines| - 1)
  }

  /** The loop over one more line is one more step. */
  lemma ScanSnoc<R>(d: Dialect<R>, lines: seq<string>, i: nat)
    requires i < |lines|
    ensures Scan(d, lines[..i + 1]) == Step(d, Scan(d, lines[..i]), lines[i], i)
  {
    assert lines[..i + 1][..i] == lines[..i];
  }

  /** The statements after the loop: push the open record and return the list. */
  function Finish<R>(d: Dialect<R>, st: ScanState<R>): Outcome<R> {
    match st
    case Thrown(i) => NullDereference(i)
    case Scanning(diffList, None, _) => Parsed(diffList)
    case Scanning(diffList, Some(obj), currentLines) =>
      Parsed(diffList + [d.withText(obj, Join(currentLines))])
  }

  /** Once the loop has thrown, the later lines change nothing. */
  lemma {:induction false} ThrowEndsScan<R>(d: Dialect<R>, lines: seq<string>, n: nat)
    requires n <= |lines|
    requires Scan(d, lines[..n]).Thrown?
    ensures Scan(d, lines) == Scan(d, lines[..n])
    decreases |lines| - n
  {
    if n < |lines| {
      assert lines[..n + 1][..n] == lines[..n];
      ThrowEndsScan(d, lines, n + 1);
    } else {
      assert lines[..n] == lines;
    }
  }

  /** What the loop's state says about the lines seen so far: it has thrown
      exactly when a field-writing line came before every header, and
      otherwise the pushed records and the open run are the runs of the
      lines from the first header on. */
  ghost predicate ScanInvariant<R>(d: Dialect<R>, ls: seq<string>, st: ScanState<R>) {
    var h := FirstWhere(ls, IsHeader);
    var f := FirstWhere(ls, d.dereferences);
    match st
    case Thrown(i) => f < h && i == f
    case Scanning(diffList, current, currentLines) =>
      h <= f &&
      if h == |ls| then current == None && diffList == []
      else
        var segs := Segments(ls[h..]);
        |currentLines| >= 1 && current == Some(Fields(d, currentLines)) &&
        segs[|segs| - 1] == currentLines &&
        Records(d, segs) == diffList + [Sealed(d, currentLines)]
  }

  /** The invariant holds after every prefix of the lines. */
  lemma {:induction false} ScanKeepsInvariant<R>(d: Dialect<R>, ls: seq<string>)
    ensures ScanInvariant(d, ls, Scan(d, ls))
    decreases |ls|
  {
    if ls != [] {
      var n := |ls|;
      var init, x := ls[..n - 1], ls[n - 1];
      assert ls == init + [x];
      ScanKeepsInvariant(d, init);
      var st := Scan(d, init);
      FirstWhereAppend(init, IsHeader, x);
      FirstWhereAppend(init, d.dereferences, x);
      match st
      case Thrown(_) =>
      case Scanning(_, _, _) =>
        if FirstWhere(init, IsHeader) == |init| {
          StepBeforeFirstHeader(d, init, x, st);
        } else {
          StepAfterFirstHeader(d, init, x, st);
        }
    }
  }

  /** A step while no header has been seen: a header opens the first run, a
      field-writing line throws, anything else is skipped. */
  lemma StepBeforeFirstHeader<R>(d: Dialect<R>, ls: seq<string>, x: string, st: ScanState<R>)
    requires st.Scanning? && ScanInvariant(d, ls, st)
    requires FirstWhere(ls, IsHeader) == |ls|
    requires FirstWhere(ls + [x], IsHeader) == if IsHeader(x) then |ls| else |ls| + 1
    requires FirstWhere(ls + [x], d.dereferences) ==
      if FirstWhere(ls, d.dereferences) < |ls| then FirstWhere(ls, d.dereferences)
      else if d.dereferences(x) then |ls| else |ls| + 1
    ensures ScanInvariant(d, ls + [x], Step(d, st, x, |ls|))
  {
    if IsHeader(x) {
      assert (ls + [x])[|ls|..] == [x];
      assert Segments([x]) == [[x]];
    }
  }

  /** A step inside a run: a header seals the open run and opens the next,
      any other line joins the open run. */
  lemma StepAfterFirstHeader<R>(d: Dialect<R>, ls: seq<string>, x: string, st: ScanState<R>)
    requires st.Scanning? && ScanInvariant(d, ls, st)
    requires FirstWhere(ls, IsHeader) < |ls|
    requires FirstWhere(ls + [x], IsHeader) == FirstWhere(ls, IsHeader)
    requires FirstWhere(ls + [x], d.dereferences) >= FirstWhere(ls, d.dereferences)
    ensures ScanInvariant(d, ls + [x], Step(d, st, x, |ls|))
  {
    if IsHeader(x) {
      StepAtHeader(d, ls, x, st);
    } else {
      StepInsideRun(d, ls, x, st);
    }
  }

  lemma StepAtHeader<R>(d: Dialect<R>, ls: seq<string>, x: string, st: ScanState<R>)
    requires st.Scanning? && ScanInvariant(d, ls, st) && IsHeader(x)
    requires FirstWhere(ls, IsHeader) < |ls|
    requires FirstWhere(ls + [x], IsHeader) == FirstWhere(ls, IsHeader)
    requires FirstWhere(ls + [x], d.dereferences) >= FirstWhere(ls, d.dereferences)
    ensures ScanInvariant(d, ls + [x], Step(d, st, x, |ls|))
  {
    var sealed := d.withText(Fields(d, st.currentLines), Join(st.currentLines));
    assert Step(d, st, x, |ls|) == Scanning(st.diffList + [sealed], Some(Fields(d, [x])), [x]);
    InvariantAtHeader(d, ls, x, st.diffList, st.currentLines);
  }

  lemma StepInsideRun<R>(d: Dialect<R>, ls: seq<string>, x: string, st: ScanState<R>)
    requires st.Scanning? && ScanInvariant(d, ls, st) && !IsHeader(x)
    requires FirstWhere(ls, IsHeader) < |ls|
    requires FirstWhere(ls + [x], IsHeader) == FirstWhere(ls, IsHeader)
    requires FirstWhere(ls + [x], d.dereferences) >= FirstWhere(ls, d.dereferences)
    ensures ScanInvariant(d, ls + [x], Step(d, st, x, |ls|))
  {
    FieldsStep(d, st.currentLines, x);
    InvariantInsideRun(d, ls, x, st.diffList, st.currentLines);
  }

  lemma InvariantAtHeader<R>(d: Dialect<R>, ls: seq<string>, x: string, dl: seq<R>, cl: seq<string>)
    requires FirstWhere(ls, IsHeader) < |ls| && IsHeader(x)
    requires FirstWhere(ls + [x], IsHeader) == FirstWhere(ls, IsHeader)
    requires FirstWhere(ls + [x], d.dereferences) >= FirstWhere(ls, IsHeader)
    requires |cl| >= 1
    requires var segs := Segments(ls[FirstWhere(ls, IsHeader)..]);
      segs[|segs| - 1] == cl && Records(d, segs) == dl + [Sealed(d, cl)]
    ensures ScanInvariant(d, ls + [x],
      Scanning(dl + [d.withText(Fields(d, cl), Join(cl))], Some(Fields(d, [x])), [x]))
  {
    var h := FirstWhere(ls, IsHeader);
    SuffixAppend(ls, h, x);
    SegmentsStep(ls[h..], x);
    HeaderOpensRun(d, ls[h..], x, dl, cl);
  }

  lemma InvariantInsideRun<R>(d: Dialect<R>, ls: seq<string>, x: string, dl: seq<R>, cl: seq<string>)
    requires FirstWhere(ls, IsHeader) < |ls| && !IsHeader(x)
    requires FirstWhere(ls + [x], IsHeader) == FirstWhere(ls, IsHeader)
    requires FirstWhere(ls + [x], d.dereferences) >= FirstWhere(ls, IsHeader)
    requires |cl| >= 1
    requires var segs := Segments(ls[FirstWhere(ls, IsHeader)..]);
      segs[|segs| - 1] == cl && Records(d, segs) == dl + [Sealed(d, cl)]
    ensures ScanInvariant(d, ls + [x], Scanning(dl, Some(Fields(d, cl + [x])), cl + [x]))
  {
    var h := FirstWhere(ls, IsHeader);
    SuffixAppend(ls, h, x);
    SegmentsStep(ls[h..], x);
    LineJoinsRun(d, ls[h..], x, dl, cl);
  }

  lemma HeaderOpensRun<R>(d: Dialect<R>, body: seq<string>, x: string,
                          diffList: seq<R>, currentLines: seq<string>)
    requires |body| >= 1 && IsHeader(body[0]) && IsHeader(x)
    requires Segments(body + [x]) == Segments(body) + [[x]]
    requires |currentLines| >= 1
    requires Records(d, Segments(body)) == diffList + [Sealed(d, currentLines)]
    ensures Records(d, Segments(body + [x])) ==
            (diffList + [d.withText(Fields(d, currentLines), Join(currentLines))]) + [Sealed(d, [x])]
    ensures Fields(d, [x]) == d.open(x)
  {
    RecordsAppend(d, Segments(body), [x]);
  }

  lemma LineJoinsRun<R>(d: Dialect<R>, body: seq<string>, x: string,
                        diffList: seq<R>, currentLines: seq<string>)
    requires |body| >= 1 && IsHeader(body[0]) && !IsHeader(x)
    requires var segs := Segments(body);
      Segments(body + [x]) == segs[..|segs| - 1] + [segs[|segs| - 1] + [x]]
    requires |currentLines| >= 1
    requires var segs := Segments(body); segs[|segs| - 1] == currentLines
    requires Records(d, Segments(body)) == diffList + [Sealed(d, currentLines)]
    ensures var segs' := Segments(body + [x]); segs'[|segs'| - 1] == currentLines + [x]
    ensures Records(d, Segments(body + [x])) == diffList + [Sealed(d, currentLines + [x])]
    ensures Fields(d, currentLines + [x]) == d.absorb(Fields(d, currentLines), x)
  {
    var segs := Segments(body);
    var init := segs[..|segs| - 1];
    assert segs == init + [currentLines];
    assert Segments(body + [x]) == init + [currentLines + [x]];
    RecordsAppend(d, init, currentLines);
    var rs := Records(d, init);
    assert rs == (rs + [Sealed(d, currentLines)])[..|rs|];
    assert Records(d, init) == diffList;
    RecordsAppend(d, init, currentLines + [x]);
    FieldsStep(d, currentLines, x);
  }

  lemma SuffixAppend(ls: seq<string>, h: nat, x: string)
    requires h <= |ls|
    ensures (ls + [x])[h..] == ls[h..] + [x]
  {
  }

  lemma RecordsAppend<R>(d: Dialect<R>, segs: seq<seq<string>>, seg: seq<string>)
    requires forall k :: 0 <= k < |segs| ==> |segs[k]| >= 1
    requires |seg| >= 1
    ensures Records(d, segs + [seg]) == Records(d, segs) + [Sealed(d, seg)]
  {
    assert (segs + [seg])[..|segs|] == segs;
  }

  /** The loop computes the run-by-run description. */
  lemma ScanIsSegmentation<R>(d: Dialect<R>, lines: seq<string>)
    ensures Finish(d, Scan(d, lines)) == Segmented(d, lines)
  {
    ScanKeepsInvariant(d, lines);
    var h := FirstWhere(lines, IsHeader);
    if h == |lines| {
      assert lines[h..] == [];
    }
  }

  /** One record per header line, in order: record `k` is the sealed run
      that the `k`-th header line opens. */
  lemma RecordsFollowHeaders<R>(d: Dialect<R>, lines: seq<string>)
    requires Segmented(d, lines).Parsed?
    ensures var rs := Segmented(d, lines).records;
      |rs| == |Runs(lines)| == |HeaderLines(lines)| &&
      forall k :: 0 <= k < |rs| ==>
        rs[k] == Sealed(d, Runs(lines)[k]) && Runs(lines)[k][0] == HeaderLines(lines)[k]
  {
    var h := FirstWhere(lines, IsHeader);
    SegmentsFollowHeaders(lines[h..]);
    HeaderLinesFromFirstHeader(lines);
    forall k | 0 <= k < |Runs(lines)| ensures Records(d, Runs(lines))[k] == Sealed(d, Runs(lines)[k]) {
      RecordsAt(d, Runs(lines), k);
    }
  }

  /** The result is an empty list exactly when there is no header line and no
      field-writing line. */
  lemma EmptyResult<R>(d: Dialect<R>, lines: seq<string>)
    ensures Segmented(d, lines) == Parsed([]) <==>
      forall j :: 0 <= j < |lines| ==> !IsHeader(lines[j]) && !d.dereferences(lines[j])
  {
    var h := FirstWhere(lines, IsHeader);
    if h < |lines| {
      assert lines[h..] != [];
    } else {
      assert lines[h..] == [];
    }
  }

  /** The call throws at line `i` exactly when line `i` is the first line that
      writes a field and no header comes before it. */
  lemma ThrowsAt<R>(d: Dialect<R>, lines: seq<string>, i: nat)
    ensures Segmented(d, lines) == NullDereference(i) <==>
      i < |lines| && d.dereferences(lines[i]) && !IsHeader(lines[i]) &&
      forall j :: 0 <= j < i ==> !d.dereferences(lines[j]) && !IsHeader(lines[j])
  {
    if i < |lines| {
      FirstWhereAt(lines, IsHeader, i);
      FirstWhereAt(lines, d.dereferences, i);
    }
  }
}
