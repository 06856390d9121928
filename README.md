# RenegadeDiff's unified-diff segmenter, in Dafny

RenegadeDiff splits the text of a `git diff` patch into one record per file.
The segmenter exists in two versions, and both are modelled here:

- `DiffFactory.create` in `src/Diff/GitDiff.ts` builds `DiffObject` records;
- `GitDiffParser.parse` in `src/Tools/GitDiffParser.ts` builds `GitDiff` records.

Both versions work the same way:

- They split the patch on `'\n'` and walk the lines once.
- A line starting with `diff --git` seals the open record and opens a new one. The new record's name comes from the header pattern `/diff --git a\/(.+?) b\/(.+)/`.
- Every other line goes through an ordered `if/else if` chain of prefix tests. It may set the operation, a file name or the binary flag, and it is added to the open record's text.

Modules:

- `Text` holds `startsWith`, `split('\n')`, `join('\n')` and prefix removal, with `Join(Split(s)) == s` and its converse.
- `HeaderPattern` is the header pattern written out as a search:
  - the leftmost start;
  - a lazy group 1;
  - a group 2 that runs to the end of the line.
- `Segmentation` covers the runs a scan cuts the lines into:
  - the first header;
  - header lines;
  - "the last line that assigns a field wins".
- `LineScan` is the loop both versions share, parameterised by a `Dialect`:
  - how a header opens a record;
  - how a line changes it;
  - which lines dereference the current record;
  - how the text is attached.

  One proof shows that the loop's state after every line agrees with a loop-free description (`Segmented`).
- `GitDiff` and `GitDiffParser` hold each version's record type, line chain and method, and the facts about its fields.

`Create` and `Parse` are methods with the source's loop and branches. Their single postcondition ties the result to `Segmented`. The lemmas then say what `Segmented` means:

- one record per header, in order;
- each record's text is its run of lines;
- the texts join back to the patch;
- each field holds what the last assigning line wrote.

A line that writes a field of the current record before any header dereferences `null` in the source and throws a `TypeError`. The model returns `NullDereference(i)` for it, where `i` is that line's index.

## Model

| member | source | states |
|---|---|---|
| GitDiff.Create | src/Diff/GitDiff.ts:40-112 | `create` returns exactly `DiffObjects(diff)`: one sealed record per run from the first header on, or the index of the line that dereferences the `null` current record |
| GitDiff.UpdateCurrent | src/Diff/GitDiff.ts:64-103 | a non-header line throws exactly when no record is open and the line writes a field; otherwise the open record becomes `Absorb(PlusPrefix, obj, line)` |
| GitDiff.Classify | src/Diff/GitDiff.ts:48-103 | the branch of the chain a line takes: the first of `diff --git`, `deleted file`, `new file`, `copy from`, `rename from`, `--- `, `+++ `, `Binary` it starts with, carrying the path after a 4-character path prefix; any other line takes the final else branch |
| GitDiff.Dereferences | src/Diff/GitDiff.ts:64-100 | the lines whose branch writes through `currentObj!`: operation markers, `Binary` lines, and `--- `/`+++ ` lines whose path is not `/dev/null` |
| GitDiff.Open | src/Diff/GitDiff.ts:57-61 | the record a header opens: no operation, no `oldFileName`, the header's file name, empty text, not binary |
| GitDiff.Absorb | src/Diff/GitDiff.ts:64-103 | a marker sets `operation`; a `--- ` path other than `/dev/null` sets `oldFileName` without `a/`; a `+++ ` path other than `/dev/null` sets `fileName` without the stripped prefix (`a/` as written); `Binary` sets `isBinary`; other lines change nothing |
| GitDiff.ClassifyByPrefix | src/Diff/GitDiff.ts:48-103 | the chain's prefix tests exclude each other, so each branch is taken exactly when its own prefix is present; no line yields `MODIFIED` |
| GitDiff.AbsorbByField | src/Diff/GitDiff.ts:64-103 | one line changes each field only when it assigns that field |
| GitDiff.FieldsAreLastAssignments | src/Diff/GitDiff.ts:57-103 | after a run, each field of the open record is what the last line assigning it wrote, else the value the header gave it |
| GitDiff.OperationIsLastMarker | src/Diff/GitDiff.ts:64-75 | `operation` is absent exactly when the run has no `deleted file`/`new file`/`copy from`/`rename from` line; otherwise the last such line's operation wins; never `MODIFIED` |
| GitDiff.OldFileNameIsLastMinusPath | src/Diff/GitDiff.ts:76-86 | `oldFileName` is absent exactly when no `--- ` line has a path other than `/dev/null`; otherwise it is the last such path without a leading `a/` |
| GitDiff.FileNameIsLastPlusPath | src/Diff/GitDiff.ts:87-96 | `fileName` is the header's name when no `+++ ` line has a path other than `/dev/null`; otherwise it is the last such path without the stripped prefix |
| GitDiff.BinaryIffBinaryLine | src/Diff/GitDiff.ts:98-100 | `isBinary` holds exactly when some line of the run starts with `Binary` |
| GitDiff.PlusPathKeepsBPrefix | src/Diff/GitDiff.ts:92-94 | as written, a `+++ b/p` line sets `fileName` to `b/p`, because the branch removes `a/` |
| GitDiff.IntendedPlusPathDropsBPrefix | __tests__/Diff/GitDiff.test.ts:13-31 | with `b/` removed, as the tests expect, a `+++ b/p` line sets `fileName` to `p` |
| GitDiff.IntendedDiffersOnlyInFileName | src/Diff/GitDiff.ts:87-96 | removing `b/` instead of `a/` changes only `fileName`: the same patches throw at the same line, and otherwise the records agree in number and in every other field |
| GitDiff.EmptyPlusPathEmptiesName | src/Diff/GitDiff.ts:89-95 | a `+++ ` line with nothing after the prefix sets `fileName` to the empty string |
| GitDiff.FieldLineFirstThrows | src/Diff/GitDiff.ts:64-100 | a patch whose first line writes a field throws at line 0, whatever follows |
| GitDiff.EmptyDiffGivesNoRecords | src/Diff/GitDiff.ts:40-111 | `create('')` returns an empty list |
| GitDiff.RecordsFollowHeaderLines | src/Diff/GitDiff.ts:48-63 | one record per `diff --git` line, in header order; record `k` is run `k` sealed, and its text starts with header `k` |
| GitDiff.RecordTextIsRun | src/Diff/GitDiff.ts:47-109 | record `k`'s text splits back into exactly run `k`: its header, then lines that are not headers |
| GitDiff.RecordsCoverFromFirstHeader | src/Diff/GitDiff.ts:47-109 | the records' texts, joined with `'\n'`, are the patch from its first header on; earlier lines belong to no record |
| GitDiff.CreateRoundTrip | src/Diff/GitDiff.ts:40-111 | a patch that starts with `diff --git` never throws, and its records' texts joined with `'\n'` give the patch back, trailing empty lines included |
| GitDiffParser.Parse | src/Tools/GitDiffParser.ts:15-76 | `parse` returns exactly `GitDiffs(diff)`: one sealed record per run from the first header on, or the index of the line that dereferences the `null` current record |
| GitDiffParser.UpdateCurrent | src/Tools/GitDiffParser.ts:39-67 | a non-header line throws exactly when no record is open and the line writes a field; otherwise the open record becomes `Absorb(obj, line)` |
| GitDiffParser.Classify | src/Tools/GitDiffParser.ts:23-67 | the branch of the chain a line takes: the first of `diff --git`, `new file mode`, `deleted file mode`, `rename from`, `--- `, `+++ `, `Binary` it starts with, carrying the path after a 4-character path prefix; any other line, `copy from` included, takes the final else branch |
| GitDiffParser.Dereferences | src/Tools/GitDiffParser.ts:39-63 | the lines whose branch writes through `currentDiffObject!`: operation markers, `Binary` lines, and `--- `/`+++ ` lines whose path is not `/dev/null` |
| GitDiffParser.Open | src/Tools/GitDiffParser.ts:32-36 | the record a header opens: no operation, the header's file name, empty text, not binary |
| GitDiffParser.Absorb | src/Tools/GitDiffParser.ts:39-67 | a marker sets `operation`; a `--- ` path other than `/dev/null` sets `fileName` without `a/`; a `+++ ` path other than `/dev/null` sets `fileName` without `b/`; `Binary` sets `isBinary`; other lines change nothing |
| GitDiffParser.ClassifyByPrefix | src/Tools/GitDiffParser.ts:23-67 | the chain's prefix tests exclude each other, so each branch is taken exactly when its own prefix is present; no line yields `MODIFIED` |
| GitDiffParser.AbsorbByField | src/Tools/GitDiffParser.ts:39-67 | one line changes each field only when it assigns that field |
| GitDiffParser.FieldsAreLastAssignments | src/Tools/GitDiffParser.ts:32-67 | after a run, each field of the open record is what the last line assigning it wrote, else the value the header gave it |
| GitDiffParser.OperationIsLastMarker | src/Tools/GitDiffParser.ts:39-47 | `operation` is absent exactly when the run has no `new file mode`/`deleted file mode`/`rename from` line; otherwise the last one wins; never `MODIFIED` |
| GitDiffParser.FileNameIsLastPath | src/Tools/GitDiffParser.ts:48-60 | `fileName` is the header's name when no `--- ` or `+++ ` line has a path other than `/dev/null`; otherwise it is the last such path, without `a/` after `--- ` or `b/` after `+++ ` |
| GitDiffParser.BinaryIffBinaryLine | src/Tools/GitDiffParser.ts:61-63 | `isBinary` holds exactly when some line of the run starts with `Binary` |
| GitDiffParser.PlusPathDropsBPrefix | src/Tools/GitDiffParser.ts:55-60 | a `+++ b/p` line sets `fileName` to `p` |
| GitDiffParser.MinusPathDropsAPrefix | src/Tools/GitDiffParser.ts:48-54 | a `--- a/p` line sets `fileName` to `p` |
| GitDiffParser.EmptyPlusPathEmptiesName | src/Tools/GitDiffParser.ts:55-60 | a `+++ ` line with nothing after the prefix sets `fileName` to the empty string |
| GitDiffParser.FieldLineFirstThrows | src/Tools/GitDiffParser.ts:39-63 | a patch whose first line writes a field throws at line 0, whatever follows |
| GitDiffParser.EmptyDiffGivesNoRecords | src/Tools/GitDiffParser.ts:16-75 | `parse('')` returns an empty list |
| GitDiffParser.RecordsFollowHeaderLines | src/Tools/GitDiffParser.ts:22-38 | one record per `diff --git` line, in header order; record `k` is run `k` sealed, and its text starts with header `k` |
| GitDiffParser.RecordTextIsRun | src/Tools/GitDiffParser.ts:22-73 | record `k`'s text splits back into exactly run `k`: its header, then lines that are not headers |
| GitDiffParser.RecordsCoverFromFirstHeader | src/Tools/GitDiffParser.ts:22-73 | the records' texts, joined with `'\n'`, are the patch from its first header on; earlier lines belong to no record |
| GitDiffParser.ParseRoundTrip | src/Tools/GitDiffParser.ts:15-76 | a patch that starts with `diff --git` never throws, and its records' texts joined with `'\n'` give the patch back |
| HeaderPattern.FileName | src/Diff/GitDiff.ts:114-122 | `'unknown'` when the pattern matches nowhere; otherwise group 2 of the match the engine reports; never empty |
| HeaderPattern.FirstMatch | src/Diff/GitDiff.ts:115 | the leftmost start at which the pattern matches, with the shortest group 1 there; `None` only if no start matches |
| HeaderPattern.LazyGroupEnd | src/Diff/GitDiff.ts:115 | the shortest extension of the lazy group 1 that lets the rest of the pattern match, or `None` if none does |
| HeaderPattern.DotRunEnd | src/Diff/GitDiff.ts:115 | the end of the longest run of characters `.` matches, i.e. anything but `\n`, `\r`, U+2028 and U+2029 |
| HeaderPattern.MalformedHeaderIsUnknown | __tests__/Diff/GitDiff.test.ts:188-198 | `diff --git malformed/diff/line` is named `'unknown'` |
| HeaderPattern.EmptyPathsAreUnknown | __tests__/Tools/GitDiffParser.test.ts:106-122 | `diff --git a/ b/` is named `'unknown'` |
| HeaderPattern.RenameHeaderName | __tests__/Diff/GitDiff.test.ts:54-74 | `diff --git a/old.txt b/new.txt` is named `new.txt` |
| HeaderPattern.RenameHeaderMatch | src/Tools/GitDiffParser.ts:29-30 | the match reported in that header starts at index 0, and its ` b/` is at index 20 |
| LineScan.ScanIsSegmentation | src/Diff/GitDiff.ts:47-109 | for both versions, the loop's final state, once sealed, is exactly the loop-free description `Segmented` |
| LineScan.Step | src/Tools/GitDiffParser.ts:23-67 | one pass of the loop body on line `i`: a header seals the open record (text attached) onto the list and opens a new one with lines `[line]`; any other line throws at `i` if no record is open and it writes a field, else updates the open record, if any, and is appended to the current lines; after a throw nothing changes |
| LineScan.Scan | src/Tools/GitDiffParser.ts:16-68 | the loop over all lines from the empty list, no open record and no current lines, one `Step` per line in order |
| LineScan.ScanKeepsInvariant | src/Tools/GitDiffParser.ts:22-68 | after every prefix of the lines, the loop's state matches it: nothing open before the first header, or the finished records plus the open run |
| LineScan.ScanSnoc | src/Diff/GitDiff.ts:47 | one more line advances the loop by exactly one step |
| LineScan.ThrowEndsScan | src/Diff/GitDiff.ts:65 | once the loop has thrown, later lines change nothing |
| LineScan.RecordsFollowHeaders | src/Diff/GitDiff.ts:48-63 | there are as many records as runs and header lines; record `k` is run `k` sealed, and run `k` starts with header `k` |
| LineScan.EmptyResult | src/Tools/GitDiffParser.ts:22-75 | the result is an empty list exactly when no line is a header and none writes a field |
| LineScan.ThrowsAt | src/Tools/GitDiffParser.ts:39-63 | the scan throws at `i` exactly when line `i` writes a field, is not a header, and every earlier line neither writes a field nor is a header |
| LineScan.Records | src/Diff/GitDiff.ts:106-109 | one record per run |
| Segmentation.SegmentsAreRuns | src/Diff/GitDiff.ts:47-104 | the runs from the first header on are each a header followed by non-header lines, and they concatenate to those lines |
| Segmentation.SegmentsUnique | src/Diff/GitDiff.ts:47-104 | that cut into runs is the only one with this shape |
| Segmentation.SegmentsFollowHeaders | src/Tools/GitDiffParser.ts:22-38 | run `k` starts with the `k`-th header line |
| Segmentation.RunsRoundTrip | src/Tools/GitDiffParser.ts:25-71 | the runs' joined texts, joined again, give the lines from the first header on |
| Segmentation.RunOfLines | src/Tools/GitDiffParser.ts:38-65 | each run is header-led and holds only lines of the patch |
| Segmentation.LastAssignmentWins | src/Diff/GitDiff.ts:64-103 | after a run, a field overwritten line by line holds the value of the last line that assigns it, and stays unset if none does |
| Segmentation.FirstWhere | src/Diff/GitDiff.ts:48 | the index of the first line passing the test, or the length if none passes |
| Segmentation.IsHeader | src/Diff/GitDiff.ts:48 | a header line is one that starts with `diff --git`, with no space required after it |
| Text.JoinSplit | src/Diff/GitDiff.ts:42 | `split('\n')` then `join('\n')` gives the string back |
| Text.SplitJoin | src/Diff/GitDiff.ts:51 | joining lines without line feeds, then splitting, gives the lines back |
| Text.Split | src/Tools/GitDiffParser.ts:17 | a split has at least one piece, and no piece holds a line feed |
| Text.StripPrefix | src/Diff/GitDiff.ts:81-83 | with the prefix present, the prefix followed by the result is the input; otherwise the input is unchanged |
| Text.Join | src/Diff/GitDiff.ts:51 | `join('\n')`: the lines in order with one line feed between neighbours, the empty string for no lines |
| Text.StartsWith | src/Diff/GitDiff.ts:48 | `startsWith`: the prefix is no longer than the string and equals its first characters |

## Left out

- Only the two segmenters are modelled. `src/engine.ts` (the GitHub API, the environment, reading files), `src/reviewer.ts` (the OpenAI call) and `src/main.ts` (the entry point) are not part of this model.
- Regular expressions in general are left out. Only the header pattern is written out, as an explicit search for its leftmost match and its lazy group 1.
- Exceptions become data. JavaScript throws a `TypeError` when a line writes a field of the `null` current record. The model returns `NullDereference(i)` instead, with the index of that line.
- Records are values. Each record is pushed onto the list when it is sealed and is not changed afterwards, so aliasing does not arise. Its in-place field updates are modelled by building the updated value.
- Both loops keep the branches after the header test in a helper method, `UpdateCurrent`, which mirrors them branch by branch. The header branch and the pushes onto `diffList` stay in the loop.
- `GitOperation`'s string values (`'new'`, `'deleted'`, …) are left out. Only the five (or four) cases are modelled.

## Behaviour of the code worth knowing

- A line that writes a field before any `diff --git` line dereferences the `null` current record, which throws in JavaScript (src/Diff/GitDiff.ts:65, src/Tools/GitDiffParser.ts:40). The model returns the index of that line: `GitDiff.FieldLineFirstThrows`, `GitDiffParser.FieldLineFirstThrows`, `LineScan.ThrowsAt`.
- A `+++ ` line with nothing after the prefix sets `fileName` to the empty string, since only `/dev/null` is exempt (src/Diff/GitDiff.ts:89-95, src/Tools/GitDiffParser.ts:56-59): `GitDiff.EmptyPlusPathEmptiesName`, `GitDiffParser.EmptyPlusPathEmptiesName`.
- In `GitDiffParser.parse` a `--- ` line writes `fileName` too (src/Tools/GitDiffParser.ts:52), so the last path line of either kind decides the name: `GitDiffParser.FileNameIsLastPath`, `GitDiffParser.MinusPathDropsAPrefix`.
- A header is any line starting with `diff --git`; no space is required after it (src/Diff/GitDiff.ts:48, src/Tools/GitDiffParser.ts:23): `Segmentation.IsHeader`.
- In `DiffFactory.create` only a `--- ` line sets `oldFileName`; the paths on `rename from`, `rename to` and `copy from` lines are not read (src/Diff/GitDiff.ts:70-86): `GitDiff.OldFileNameIsLastMinusPath`.
- `DiffFactory.create` removes `a/`, not `b/`, from a `+++ ` path (src/Diff/GitDiff.ts:92-94), while its tests expect the `b/` gone (__tests__/Diff/GitDiff.test.ts:27, :70, :93, :113); see Findings.

## Findings

| source | as written | input that shows it | evidently intended | confidence | as-written member | corrected member |
|---|---|---|---|---|---|---|
| src/Diff/GitDiff.ts:92-94 | the `+++ ` branch removes a leading `a/` from the new path | `+++ b/newfile.txt` (the new-file case of __tests__/Diff/GitDiff.test.ts:13-31) sets `fileName` to `b/newfile.txt`, where the test expects `newfile.txt` | remove a leading `b/`, as `GitDiffParser.parse` does at src/Tools/GitDiffParser.ts:58 | not executed | GitDiff.PlusPathKeepsBPrefix | GitDiff.IntendedPlusPathDropsBPrefix |
