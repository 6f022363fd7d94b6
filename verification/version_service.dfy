/** The version service (internal/service/version.go): reading a stored
    version, the line-by-line comparison of two versions, and rollback, which
    never rewrites history but appends a copy of the target version. */
module VersionService {
  import opened Wrappers
  import opened Text
  import opened Records
  import opened Errors
  import opened Db
  import opened Seqs
  import opened LineDiff
  import GoInt
  import ContentHash
  import ConfigRepo
  import VersionRepo

  /** List: the configuration's versions, newest first. */
  function List(db: Db, configId: int): (r: seq<ConfigVersion>)
    ensures forall i, j :: 0 <= i < j < |r| ==> r[i].version >= r[j].version
    ensures forall v :: v in r <==> v in db.versions && v.configId == configId
    ensures multiset(r) == multiset(Filter(db.versions, (v: ConfigVersion) => v.configId == configId))
  {
    VersionRepo.List(db.versions, configId)
  }

  /** GetByVersion: a missing row is ErrVersionNotFound. */
  function GetByVersion(db: Db, configId: int, version: int): (r: Result<ConfigVersion, Error>)
    ensures r.Ok? ==> r.value in db.versions && r.value.configId == configId && r.value.version == version
    ensures r.Err? ==> r.error == VersionNotFound
    ensures r.Err? <==> forall i :: 0 <= i < |db.versions| ==>
      !(db.versions[i].configId == configId && db.versions[i].version == version)
  {
    match VersionRepo.GetByConfigAndVersion(db.versions, configId, version)
    case None => Err(VersionNotFound)
    case Some(v) => Ok(v)
  }

  // ---------------------------------------------------------------------------
  // diffContent: a positional line comparison
  // ---------------------------------------------------------------------------

  /** DiffLine; `lineNum` counts from 1. */
  datatype DiffLine = DiffLine(kind: LineKind, lineNum: int, content: string)

  datatype DiffResult = DiffResult(fromVersion: int, toVersion: int, changes: seq<DiffLine>)

  /** The i-th line, or the empty line past the end of the shorter side. */
  function LineAt(lines: seq<string>, i: nat): string {
    if i < |lines| then lines[i] else ""
  }

  /** What one line position contributes: the line once when both sides
      agree; otherwise the old line as removed and the new line as added,
      each only when it is not empty. */
  function LineGroup(oldLine: string, newLine: string, lineNum: int): (g: seq<DiffLine>)
    ensures |g| <= 2
    ensures forall i :: 0 <= i < |g| ==> g[i].lineNum == lineNum
    ensures forall i :: 0 <= i < |g| ==> g[i].content != "" || g[i].kind == Unchanged
  {
    if oldLine == newLine then [DiffLine(Unchanged, lineNum, newLine)]
    else
      (if oldLine != "" then [DiffLine(Remove, lineNum, oldLine)] else [])
      + (if newLine != "" then [DiffLine(Add, lineNum, newLine)] else [])
  }

  /** The new side of a position, read back from its entries: the content of
      its unchanged or added entry, or the empty line. */
  function NewSide(g: seq<DiffLine>): string {
    if |g| == 0 then "" else if g[0].kind != Remove then g[0].content else NewSide(g[1..])
  }

  /** The old side of a position: its unchanged or removed entry. */
  function OldSide(g: seq<DiffLine>): string {
    if |g| == 0 then "" else if g[0].kind != Add then g[0].content else OldSide(g[1..])
  }

  /** Each position's entries determine both lines it compared. */
  lemma GroupRecoversLines(oldLine: string, newLine: string, lineNum: int)
    ensures NewSide(LineGroup(oldLine, newLine, lineNum)) == newLine
    ensures OldSide(LineGroup(oldLine, newLine, lineNum)) == oldLine
  {
    var g := LineGroup(oldLine, newLine, lineNum);
    if oldLine != newLine && oldLine != "" && newLine != "" {
      assert g[1..] == [DiffLine(Add, lineNum, newLine)];
    }
  }

  function MaxLen(a: seq<string>, b: seq<string>): nat {
    if |a| < |b| then |b| else |a|
  }

  /** The entries of positions i, i+1, ... up to the longer side. */
  function DiffFrom(oldLines: seq<string>, newLines: seq<string>, i: nat): (r: seq<DiffLine>)
    ensures forall k :: 0 <= k < |r| ==> i + 1 <= r[k].lineNum <= MaxLen(oldLines, newLines)
    ensures i <= MaxLen(oldLines, newLines) ==> |r| <= 2 * (MaxLen(oldLines, newLines) - i)
    decreases MaxLen(oldLines, newLines) - i
  {
    if i >= MaxLen(oldLines, newLines) then []
    else LineGroup(LineAt(oldLines, i), LineAt(newLines, i), i + 1) + DiffFrom(oldLines, newLines, i + 1)
  }

  /** diffContent */
  function DiffContent(oldContent: string, newContent: string): (r: seq<DiffLine>)
    ensures var m := MaxLen(Split(oldContent, '\n'), Split(newContent, '\n'));
      |r| <= 2 * m && forall k :: 0 <= k < |r| ==> 1 <= r[k].lineNum <= m
  {
    DiffFrom(Split(oldContent, '\n'), Split(newContent, '\n'), 0)
  }

  /** The entries numbered `lineNum`. */
  function AtLine(lineNum: int): DiffLine -> bool {
    (d: DiffLine) => d.lineNum == lineNum
  }

  lemma FilterNone(xs: seq<DiffLine>, lineNum: int)
    requires forall k :: 0 <= k < |xs| ==> xs[k].lineNum != lineNum
    ensures Filter(xs, AtLine(lineNum)) == []
  {
  }

  lemma {:induction false} DiffFromAtLine(oldLines: seq<string>, newLines: seq<string>, i: nat, lineNum: int)
    requires i < lineNum <= MaxLen(oldLines, newLines)
    ensures Filter(DiffFrom(oldLines, newLines, i), AtLine(lineNum))
      == LineGroup(LineAt(oldLines, lineNum - 1), LineAt(newLines, lineNum - 1), lineNum)
    decreases MaxLen(oldLines, newLines) - i
  {
    var g := LineGroup(LineAt(oldLines, i), LineAt(newLines, i), i + 1);
    var rest := DiffFrom(oldLines, newLines, i + 1);
    FilterAppend(g, rest, AtLine(lineNum));
    if lineNum == i + 1 {
      FilterAll(g, AtLine(lineNum));
      FilterNone(rest, lineNum);
    } else {
      FilterNone(g, lineNum);
      DiffFromAtLine(oldLines, newLines, i + 1, lineNum);
    }
  }

  /** The comparison loses nothing: for every position, the entries carrying
      that line number give back the old and the new line there. */
  lemma DiffRecoversBothSides(oldContent: string, newContent: string, lineNum: int)
    requires 1 <= lineNum <= MaxLen(Split(oldContent, '\n'), Split(newContent, '\n'))
    ensures var g := Filter(DiffContent(oldContent, newContent), AtLine(lineNum));
      && NewSide(g) == LineAt(Split(newContent, '\n'), lineNum - 1)
      && OldSide(g) == LineAt(Split(oldContent, '\n'), lineNum - 1)
  {
    var ol := Split(oldContent, '\n');
    var nl := Split(newContent, '\n');
    DiffFromAtLine(ol, nl, 0, lineNum);
    GroupRecoversLines(LineAt(ol, lineNum - 1), LineAt(nl, lineNum - 1), lineNum);
  }

  lemma {:induction false} DiffFromSame(lines: seq<string>, i: nat)
    requires i <= |lines|
    ensures DiffFrom(lines, lines, i) == seq(|lines| - i, k requires 0 <= k < |lines| - i =>
      DiffLine(Unchanged, i + k + 1, lines[i + k]))
    decreases |lines| - i
  {
    if i < |lines| {
      DiffFromSame(lines, i + 1);
    }
  }

  /** Comparing a content with itself reports every line, numbered in order,
      as unchanged. */
  lemma DiffSelf(content: string)
    ensures var lines := Split(content, '\n');
      DiffContent(content, content) == seq(|lines|, k requires 0 <= k < |lines| => DiffLine(Unchanged, k + 1, lines[k]))
  {
    DiffFromSame(Split(content, '\n'), 0);
  }

  /** Diff: both versions must exist; the changes run from `fromV` to `toV`. */
  function Diff(db: Db, configId: int, fromV: int, toV: int): (r: Result<DiffResult, Error>)
    ensures r.Err? ==> r.error == VersionNotFound
    ensures r.Ok? <==> GetByVersion(db, configId, fromV).Ok? && GetByVersion(db, configId, toV).Ok?
    ensures r.Ok? ==> (r.value.fromVersion == fromV && r.value.toVersion == toV
      && r.value.changes == DiffContent(GetByVersion(db, configId, fromV).value.content,
                                        GetByVersion(db, configId, toV).value.content))
  {
    var from :- GetByVersion(db, configId, fromV);
    var to :- GetByVersion(db, configId, toV);
    Ok(DiffResult(fromV, toV, DiffContent(from.content, to.content)))
  }

  // ---------------------------------------------------------------------------
  // Rollback
  // ---------------------------------------------------------------------------

  const RollbackPrefix := "回滚到版本 "

  /** The commit message as written: `string(rune(toVersion + '0'))` in Go's
      int arithmetic. */
  function RollbackMessageAsWritten(toVersion: int): string {
    RollbackPrefix + GoInt.RuneString(GoInt.Wrap64(toVersion + '0' as int))
  }

  /** Rolling back to version 10 is recorded as a rollback to version ":". */
  lemma RollbackMessageAsWrittenMisnames()
    ensures RollbackMessageAsWritten(10) == RollbackPrefix + ":"
    ensures RollbackMessageAsWritten(10) != RollbackMessage(10)
  {
    assert NatToDecimal(10) == "10";
    assert (RollbackPrefix + ":")[|RollbackPrefix|] == ':';
    assert (RollbackPrefix + "10")[|RollbackPrefix|] == '1';
  }

  /** The message the code evidently means: the version number in decimal. */
  function RollbackMessage(toVersion: int): (m: string)
    ensures HasPrefix(m, RollbackPrefix)
    ensures toVersion >= 0 ==> (AllDigits(m[|RollbackPrefix|..])
      && DigitsValue(m[|RollbackPrefix|..]) == toVersion)
  {
    var m := RollbackPrefix + IntToDecimal(toVersion);
    assert m[|RollbackPrefix|..] == IntToDecimal(toVersion);
    DecimalRoundTrip(if toVersion >= 0 then toVersion else 0);
    m
  }

  /** For single-digit versions the two spellings agree. */
  lemma RollbackMessagesAgreeBelowTen(toVersion: int)
    requires 0 <= toVersion < 10
    ensures RollbackMessageAsWritten(toVersion) == RollbackMessage(toVersion)
  {
  }

  /** Rollback: the target must exist (checked first), then the
      configuration; a new version CurrentVersion+1 copies the target's
      content and becomes current. Its commit message is spelled as the code
      writes it, which names versions from 10 on wrongly. */
  function Rollback(db: Db, sha: ContentHash.Sha256, configId: int, toVersion: int, author: string)
    : (o: Outcome<ConfigVersion>)
    ensures o.result.Err? ==> o.db == db
    ensures GetByVersion(db, configId, toVersion).Err? ==> o.result == Err(VersionNotFound)
    ensures GetByVersion(db, configId, toVersion).Ok? && ConfigRepo.GetByID(db.configs, configId).None?
      ==> o.result == Err(ConfigNotFound)
    ensures o.result.Ok? ==>
      var c := ConfigRepo.GetByID(db.configs, configId).value;
      var target := GetByVersion(db, configId, toVersion).value;
      && o.result.value == ConfigVersion(db.nextVersionId, configId, c.currentVersion + 1, target.content,
                                        ContentHash.CommitHash(sha, target.content), RollbackMessageAsWritten(toVersion), author)
      && o.db.versions == db.versions + [o.result.value]
      && o.db.configs == ConfigRepo.Update(db.configs, c.(currentVersion := c.currentVersion + 1))
      && o.db.releases == db.releases
      && o.db.nextConfigId == db.nextConfigId && o.db.nextVersionId == db.nextVersionId + 1
      && o.db.nextReleaseId == db.nextReleaseId
  {
    match GetByVersion(db, configId, toVersion)
    case Err(e) => Outcome(db, Err(e))
    case Ok(target) =>
      match ConfigRepo.GetByID(db.configs, configId)
      case None => Outcome(db, Err(ConfigNotFound))
      case Some(config) =>
        var newVersion := config.currentVersion + 1;
        var (db1, row) := InsertVersion(db, ConfigVersion(0, configId, newVersion, target.content,
                                                          ContentHash.CommitHash(sha, target.content),
                                                          RollbackMessageAsWritten(toVersion), author));
        Outcome(db1.(configs := ConfigRepo.Update(db1.configs, config.(currentVersion := newVersion))), Ok(row))
  }

  lemma RollbackKeepsGood(db: Db, sha: ContentHash.Sha256, configId: int, toVersion: int, author: string)
    requires Good(db)
    ensures Good(Rollback(db, sha, configId, toVersion, author).db)
  {
    var o := Rollback(db, sha, configId, toVersion, author);
    if o.result.Ok? {
      AdvanceKeepsGood(db, ConfigRepo.GetByID(db.configs, configId).value, o.result.value, o.db);
    }
  }

  /** After a rollback the configuration serves the target's content again. */
  lemma RollbackRestoresContent(db: Db, sha: ContentHash.Sha256, configId: int, toVersion: int, author: string)
    requires Good(db)
    requires Rollback(db, sha, configId, toVersion, author).result.Ok?
    ensures var o := Rollback(db, sha, configId, toVersion, author);
      && VersionRepo.GetLatest(o.db.versions, configId) == Some(o.result.value)
      && o.result.value.content == GetByVersion(db, configId, toVersion).value.content
  {
    var o := Rollback(db, sha, configId, toVersion, author);
    RollbackKeepsGood(db, sha, configId, toVersion, author);
    var c := ConfigRepo.GetByID(db.configs, configId).value;
    var k := ConfigIndex(db.configs, c);
    var c' := c.(currentVersion := c.currentVersion + 1);
    UpdateAt(db, k, c');
    assert o.db.configs[k] == c';
    var n := |db.versions|;
    assert o.db.versions[n] == o.result.value;
    LatestUnique(o.db, c');
    OnlyRow(o.db, c', n);
  }

  /** A stored version number names exactly one row of its configuration. */
  lemma OnlyRow(db: Db, c: Config, n: nat)
    requires Good(db)
    requires c in db.configs
    requires n < |db.versions| && db.versions[n].configId == c.id && db.versions[n].version == c.currentVersion
    ensures VersionRepo.GetByConfigAndVersion(db.versions, c.id, c.currentVersion) == Some(db.versions[n])
  {
    var k := ConfigIndex(db.configs, c);
    assert History(db.versions, c);
    var b := VersionRepo.GetByConfigAndVersion(db.versions, c.id, c.currentVersion).value;
    var j :| 0 <= j < |db.versions| && db.versions[j] == b;
    HistoryRowsUnique(db.versions, c, j, n);
  }

  /** Under the invariant the latest version is the one numbered
      CurrentVersion, and there is only one such row. */
  lemma LatestUnique(db: Db, c: Config)
    requires Good(db)
    requires c in db.configs
    ensures VersionRepo.GetLatest(db.versions, c.id) == VersionRepo.GetByConfigAndVersion(db.versions, c.id, c.currentVersion)
  {
    LatestIsCurrent(db, c);
    var k := ConfigIndex(db.configs, c);
    assert History(db.versions, c);
    var a := VersionRepo.GetLatest(db.versions, c.id).value;
    var b := VersionRepo.GetByConfigAndVersion(db.versions, c.id, c.currentVersion).value;
    var i :| 0 <= i < |db.versions| && db.versions[i] == a;
    var j :| 0 <= j < |db.versions| && db.versions[j] == b;
    HistoryRowsUnique(db.versions, c, i, j);
  }
}
