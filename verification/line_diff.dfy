/** The line comparison of the diff service (internal/service/diff.go:18-109
    and 230-250): a two-pointer walk that keeps equal lines, replaces a
    differing line by a removal and an addition, and runs out the longer
    side. Nothing is lost: each side of the comparison can be read back from
    the entries. */
module LineDiff {
  import opened Text

  /** The "type" of a line entry. */
  datatype LineKind = Add | Remove | Unchanged

  /** LineDiff; `oldLine` and `newLine` count from 1, and 0 stands for the
      omitted field. */
  datatype LineDiff = LineDiff(kind: LineKind, lineNumber: int, oldLine: int, newLine: int, content: string)

  /** A side of the comparison as (line number, text) pairs. */
  function Numbered(lines: seq<string>): (r: seq<(int, string)>)
    ensures |r| == |lines|
  {
    seq(|lines|, i requires 0 <= i < |lines| => (i + 1, lines[i]))
  }

  function Texts(view: seq<(int, string)>): (r: seq<string>)
    ensures |r| == |view|
  {
    seq(|view|, i requires 0 <= i < |view| => view[i].1)
  }

  lemma TextsOfNumbered(lines: seq<string>)
    ensures Texts(Numbered(lines)) == lines
  {
  }

  /** The old side as the entries tell it: every entry that is not an
      addition, with its old line number. */
  function OldView(ds: seq<LineDiff>): seq<(int, string)> {
    if |ds| == 0 then []
    else
      var d := ds[|ds| - 1];
      OldView(ds[..|ds| - 1]) + (if d.kind != Add then [(d.oldLine, d.content)] else [])
  }

  /** The new side: every entry that is not a removal. */
  function NewView(ds: seq<LineDiff>): seq<(int, string)> {
    if |ds| == 0 then []
    else
      var d := ds[|ds| - 1];
      NewView(ds[..|ds| - 1]) + (if d.kind != Remove then [(d.newLine, d.content)] else [])
  }

  lemma {:induction false} ViewsAppend(ds: seq<LineDiff>, e: seq<LineDiff>)
    ensures OldView(ds + e) == OldView(ds) + OldView(e)
    ensures NewView(ds + e) == NewView(ds) + NewView(e)
    decreases |e|
  {
    if |e| > 0 {
      var n := |e| - 1;
      assert (ds + e)[..|ds + e| - 1] == ds + e[..n];
      ViewsAppend(ds, e[..n]);
    } else {
      assert ds + e == ds;
    }
  }

  function Max(a: int, b: int): int {
    if a < b then b else a
  }

  /** One turn of simpleDiff's loop at positions (oldIdx, newIdx): the
      entries it appends and the positions it moves to. */
  function Step(oldLines: seq<string>, newLines: seq<string>, oldIdx: nat, newIdx: nat, lineNum: int)
    : (r: (seq<LineDiff>, nat, nat))
    requires oldIdx <= |oldLines| && newIdx <= |newLines|
    requires oldIdx < |oldLines| || newIdx < |newLines|
    ensures 1 <= |r.0| <= 2
    ensures forall k :: 0 <= k < |r.0| ==> r.0[k].lineNumber == lineNum
  {
    if oldIdx >= |oldLines| then
      ([LineDiff(Add, lineNum, 0, newIdx + 1, newLines[newIdx])], oldIdx, newIdx + 1)
    else if newIdx >= |newLines| then
      ([LineDiff(Remove, lineNum, oldIdx + 1, 0, oldLines[oldIdx])], oldIdx + 1, newIdx)
    else if oldLines[oldIdx] == newLines[newIdx] then
      ([LineDiff(Unchanged, lineNum, oldIdx + 1, newIdx + 1, oldLines[oldIdx])], oldIdx + 1, newIdx + 1)
    else
      ([LineDiff(Remove, lineNum, oldIdx + 1, 0, oldLines[oldIdx]),
        LineDiff(Add, lineNum, 0, newIdx + 1, newLines[newIdx])], oldIdx + 1, newIdx + 1)
  }

  /** A turn consumes the lines it reports, on each side, in order. */
  lemma StepViews(oldLines: seq<string>, newLines: seq<string>, oldIdx: nat, newIdx: nat, lineNum: int)
    requires oldIdx <= |oldLines| && newIdx <= |newLines|
    requires oldIdx < |oldLines| || newIdx < |newLines|
    ensures var (e, o, n) := Step(oldLines, newLines, oldIdx, newIdx, lineNum);
      && oldIdx <= o <= |oldLines| && newIdx <= n <= |newLines| && o + n > oldIdx + newIdx
      && (o == oldIdx + 1 || (o == oldIdx == |oldLines|))
      && (n == newIdx + 1 || (n == newIdx == |newLines|))
      && Numbered(oldLines[..oldIdx]) + OldView(e) == Numbered(oldLines[..o])
      && Numbered(newLines[..newIdx]) + NewView(e) == Numbered(newLines[..n])
  {
    var (e, o, n) := Step(oldLines, newLines, oldIdx, newIdx, lineNum);
    if |e| == 2 {
      assert e[..1] == [e[0]];
      assert OldView(e) == OldView(e[..1]);
      assert NewView(e[..1]) == [];
    }
  }

  /** Line numbers start at 1, never decrease, and end at `lineNum`. */
  predicate NumberedUpTo(ds: seq<LineDiff>, lineNum: int) {
    && (forall k :: 0 <= k < |ds| ==> 1 <= ds[k].lineNumber <= lineNum)
    && (forall j, k :: 0 <= j < k < |ds| ==> ds[j].lineNumber <= ds[k].lineNumber)
    && (|ds| > 0 ==> ds[|ds| - 1].lineNumber == lineNum)
  }

  lemma NumberedUpToAppend(ds: seq<LineDiff>, e: seq<LineDiff>, lineNum: int)
    requires lineNum >= 1
    requires NumberedUpTo(ds, lineNum - 1)
    requires |e| > 0 && forall k :: 0 <= k < |e| ==> e[k].lineNumber == lineNum
    ensures NumberedUpTo(ds + e, lineNum)
  {
  }

  /** Where simpleDiff's loop stands after `diffs`: both positions within
      their side and only the longer side ahead of the other, `lineNum`
      turns taken, and the entries so far reporting exactly the lines
      consumed. */
  predicate Progress(oldLines: seq<string>, newLines: seq<string>, diffs: seq<LineDiff>,
                     oldIdx: int, newIdx: int, lineNum: int)
  {
    && 0 <= oldIdx <= |oldLines| && 0 <= newIdx <= |newLines|
    && (oldIdx == newIdx || (oldIdx == |oldLines| && newIdx > oldIdx) || (newIdx == |newLines| && oldIdx > newIdx))
    && lineNum == Max(oldIdx, newIdx)
    && OldView(diffs) == Numbered(oldLines[..oldIdx])
    && NewView(diffs) == Numbered(newLines[..newIdx])
    && NumberedUpTo(diffs, lineNum)
  }

  /** One turn of the loop keeps its progress and moves forward. */
  lemma StepKeepsProgress(oldLines: seq<string>, newLines: seq<string>, diffs: seq<LineDiff>,
                          oldIdx: nat, newIdx: nat, lineNum: int)
    requires Progress(oldLines, newLines, diffs, oldIdx, newIdx, lineNum)
    requires oldIdx < |oldLines| || newIdx < |newLines|
    ensures var (e, o, n) := Step(oldLines, newLines, oldIdx, newIdx, lineNum + 1);
      && Progress(oldLines, newLines, diffs + e, o, n, lineNum + 1)
      && o + n > oldIdx + newIdx
  {
    var (e, o, n) := Step(oldLines, newLines, oldIdx, newIdx, lineNum + 1);
    StepViews(oldLines, newLines, oldIdx, newIdx, lineNum + 1);
    ViewsAppend(diffs, e);
    NumberedUpToAppend(diffs, e, lineNum + 1);
  }

  /** simpleDiff */
  method SimpleDiff(oldLines: seq<string>, newLines: seq<string>) returns (diffs: seq<LineDiff>)
    ensures OldView(diffs) == Numbered(oldLines)
    ensures NewView(diffs) == Numbered(newLines)
    ensures NumberedUpTo(diffs, Max(|oldLines|, |newLines|))
  {
    diffs := [];
    var oldIdx, newIdx, lineNum := 0, 0, 0;
    while oldIdx < |oldLines| || newIdx < |newLines|
      invariant 0 <= oldIdx && 0 <= newIdx
      invariant Progress(oldLines, newLines, diffs, oldIdx, newIdx, lineNum)
      decreases |oldLines| - oldIdx + |newLines| - newIdx
    {
      StepKeepsProgress(oldLines, newLines, diffs, oldIdx, newIdx, lineNum);
      lineNum := lineNum + 1;
      var (e, o, n) := Step(oldLines, newLines, oldIdx, newIdx, lineNum);
      diffs := diffs + e;
      oldIdx, newIdx := o, n;
    }
    assert oldLines[..oldIdx] == oldLines;
    assert newLines[..newIdx] == newLines;
  }

  /** DiffLines: both texts can be rebuilt from the entries. */
  method DiffLines(oldContent: string, newContent: string) returns (diffs: seq<LineDiff>)
    ensures Join(Texts(OldView(diffs)), "\n") == oldContent
    ensures Join(Texts(NewView(diffs)), "\n") == newContent
    ensures OldView(diffs) == Numbered(Split(oldContent, '\n'))
    ensures NewView(diffs) == Numbered(Split(newContent, '\n'))
  {
    diffs := SimpleDiff(Split(oldContent, '\n'), Split(newContent, '\n'));
    TextsOfNumbered(Split(oldContent, '\n'));
    TextsOfNumbered(Split(newContent, '\n'));
    SplitJoin(oldContent, '\n');
    SplitJoin(newContent, '\n');
  }

  // ---------------------------------------------------------------------------
  // GetDiffSummary
  // ---------------------------------------------------------------------------

  datatype Summary = Summary(added: nat, removed: nat, kept: nat)  // "added", "removed", "unchanged"

  /** GetDiffSummary: entries counted by type. */
  function GetDiffSummary(ds: seq<LineDiff>): (s: Summary)
    ensures s.added + s.removed + s.kept == |ds|
  {
    if |ds| == 0 then Summary(0, 0, 0)
    else
      var s := GetDiffSummary(ds[..|ds| - 1]);
      match ds[|ds| - 1].kind
      case Add => s.(added := s.added + 1)
      case Remove => s.(removed := s.removed + 1)
      case Unchanged => s.(kept := s.kept + 1)
  }

  /** The summary agrees with the two sides: removed plus unchanged lines
      make up the old side, added plus unchanged lines the new side. */
  lemma {:induction false} SummaryCountsSides(ds: seq<LineDiff>)
    ensures GetDiffSummary(ds).removed + GetDiffSummary(ds).kept == |OldView(ds)|
    ensures GetDiffSummary(ds).added + GetDiffSummary(ds).kept == |NewView(ds)|
  {
    if |ds| > 0 {
      SummaryCountsSides(ds[..|ds| - 1]);
    }
  }

  /** For the line comparison the summary counts the lines of each text. */
  method DiffLinesSummary(oldContent: string, newContent: string) returns (s: Summary)
    ensures s.removed + s.kept == |Split(oldContent, '\n')|
    ensures s.added + s.kept == |Split(newContent, '\n')|
  {
    var diffs := DiffLines(oldContent, newContent);
    SummaryCountsSides(diffs);
    s := GetDiffSummary(diffs);
  }
}
