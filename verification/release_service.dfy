/** The release service (internal/service/release.go): full releases of a
    stored version to an environment, the release history, and rollback of a
    release to the previous released version of the same environment. */
module ReleaseService {
  import opened Wrappers
  import opened Records
  import opened Errors
  import opened Db
  import opened Seqs
  import ConfigRepo
  import VersionRepo
  import ReleaseRepo

  /** Create: version 0 means the configuration's current version, which
      must exist; the release is a full release in "released" status. */
  function Create(db: Db, configId: int, env: string, version: int, author: string, now: int)
    : (o: Outcome<Release>)
    ensures o.result.Err? ==> o.db == db
    ensures ConfigRepo.GetByID(db.configs, configId).None? <==> o.result == Err(ConfigNotFound)
    ensures o.result.Err? && o.result.error != ConfigNotFound ==> o.result.error == VersionNotFound
    ensures o.result.Ok? ==>
      var c := ConfigRepo.GetByID(db.configs, configId).value;
      var v := if version == 0 then c.currentVersion else version;
      && VersionRepo.GetByConfigAndVersion(db.versions, configId, v).Some?
      && o.result.value == Release(db.nextReleaseId, c.projectId, configId, v, env, Released, Full, None, 0, author, now)
      && o.db == db.(releases := db.releases + [o.result.value], nextReleaseId := db.nextReleaseId + 1)
  {
    match ConfigRepo.GetByID(db.configs, configId)
    case None => Outcome(db, Err(ConfigNotFound))
    case Some(config) =>
      var v := if version == 0 then config.currentVersion else version;
      if VersionRepo.GetByConfigAndVersion(db.versions, configId, v).None? then Outcome(db, Err(VersionNotFound))
      else
        var (db1, row) := InsertRelease(db, Release(0, config.projectId, configId, v, env, Released, Full, None, 0, author, 0), now);
        Outcome(db1, Ok(row))
  }

  /** A release is refused exactly when the named version is not stored. */
  lemma CreateNeedsStoredVersion(db: Db, configId: int, env: string, version: int, author: string, now: int)
    requires ConfigRepo.GetByID(db.configs, configId).Some?
    ensures var c := ConfigRepo.GetByID(db.configs, configId).value;
      var v := if version == 0 then c.currentVersion else version;
      (Create(db, configId, env, version, author, now).result.Ok? <==>
         exists i :: 0 <= i < |db.versions| && db.versions[i].configId == configId && db.versions[i].version == v)
  {
  }

  lemma CreateKeepsGood(db: Db, configId: int, env: string, version: int, author: string, now: int)
    requires Good(db)
    ensures Good(Create(db, configId, env, version, author, now).db)
  {
    var o := Create(db, configId, env, version, author, now);
    if o.result.Ok? {
      var c := ConfigRepo.GetByID(db.configs, configId).value;
      var v := if version == 0 then c.currentVersion else version;
      InsertReleaseKeepsGood(db, Release(0, c.projectId, configId, v, env, Released, Full, None, 0, author, 0), now);
    }
  }

  /** List: the configuration's releases, newest first. */
  function List(db: Db, configId: int): (r: seq<Release>)
    ensures forall i, j :: 0 <= i < j < |r| ==> r[i].releasedAt >= r[j].releasedAt
    ensures forall x :: x in r <==> x in db.releases && x.configId == configId
    ensures multiset(r) == multiset(Filter(db.releases, (x: Release) => x.configId == configId))
  {
    ReleaseRepo.List(db.releases, configId)
  }

  /** GetByEnv: the release the environment currently serves, the newest
      current one and the first in the table among equally new ones. */
  function GetByEnv(db: Db, configId: int, env: string): (r: Option<Release>)
    ensures r.Some? ==> r.value in db.releases && ReleaseRepo.Current(r.value, configId, env)
    ensures r.None? <==> forall i :: 0 <= i < |db.releases| ==> !ReleaseRepo.Current(db.releases[i], configId, env)
    ensures r.Some? ==> forall i :: 0 <= i < |db.releases| && ReleaseRepo.Current(db.releases[i], configId, env) ==>
      db.releases[i].releasedAt <= r.value.releasedAt
    ensures r.Some? ==>
      exists i :: 0 <= i < |db.releases| && db.releases[i] == r.value
        && (forall j :: 0 <= j < i && ReleaseRepo.Current(db.releases[j], configId, env) ==>
              db.releases[j].releasedAt < r.value.releasedAt)
  {
    ReleaseRepo.GetByConfigAndEnv(db.releases, configId, env)
  }

  /** The release Rollback goes back to: the newest released release of the
      same environment other than the rolled-back one. */
  predicate Previous(x: Release, releaseId: int, env: string) {
    x.id != releaseId && x.environment == env && x.status == Released
  }

  /** The version a rollback of `x` goes back to, read from the history
      after `x` has been marked: none when the configuration has fewer than
      two releases or the previous release's version is 0. */
  function PreviousVersion(marked: seq<Release>, x: Release, releaseId: int): (r: Option<int>)
    ensures r.Some? ==> r.value != 0
    ensures r.Some? ==>
      var prev := First(ReleaseRepo.List(marked, x.configId), (p: Release) => Previous(p, releaseId, x.environment));
      prev.Some? && prev.value.version == r.value
  {
    var history := ReleaseRepo.List(marked, x.configId);
    if |history| < 2 then None
    else
      match First(history, (p: Release) => Previous(p, releaseId, x.environment))
      case None => None
      case Some(p) => if p.version == 0 then None else Some(p.version)
  }

  /** The release a rollback creates. */
  function RollbackRelease(x: Release, version: int, author: string): Release {
    Release(0, x.projectId, x.configId, version, x.environment, Released, Full, None, 0, author, 0)
  }

  /** Rollback. The rolled-back release is marked "rollback" first, and that
      mark stays even when there turns out to be nothing to go back to: fewer
      than two releases of the configuration, or no previous release with a
      non-zero version. */
  function Rollback(db: Db, releaseId: int, author: string, now: int): (o: Outcome<Release>)
    ensures ReleaseRepo.GetByID(db.releases, releaseId).None? <==> o.result == Err(ReleaseNotFound)
    ensures ReleaseRepo.GetByID(db.releases, releaseId).None? ==> o.db == db
    ensures o.result.Err? && o.result.error != ReleaseNotFound ==> o.result.error == NothingToRollBack
    ensures ReleaseRepo.GetByID(db.releases, releaseId).Some? ==>
      var x := ReleaseRepo.GetByID(db.releases, releaseId).value;
      var marked := db.(releases := ReleaseRepo.Update(db.releases, x.(status := RolledBack)));
      var target := PreviousVersion(marked.releases, x, releaseId);
      && (o.result.Err? <==> target.None?)
      && (o.result.Err? ==> o.db == marked)
      && (o.result.Ok? ==> (o.db, o.result.value) == InsertRelease(marked, RollbackRelease(x, target.value, author), now))
  {
    match ReleaseRepo.GetByID(db.releases, releaseId)
    case None => Outcome(db, Err(ReleaseNotFound))
    case Some(x) =>
      var db1 := db.(releases := ReleaseRepo.Update(db.releases, x.(status := RolledBack)));
      match PreviousVersion(db1.releases, x, releaseId)
      case None => Outcome(db1, Err(NothingToRollBack))
      case Some(v) =>
        var (db2, row) := InsertRelease(db1, RollbackRelease(x, v, author), now);
        Outcome(db2, Ok(row))
  }

  /** The rolled-back release keeps its "rollback" mark whether or not a new
      release follows. */
  lemma RollbackMarksRelease(db: Db, releaseId: int, author: string, now: int, k: nat)
    requires ReleaseKeys(db)
    requires k < |db.releases| && db.releases[k].id == releaseId
    ensures Rollback(db, releaseId, author, now).db.releases[k] == db.releases[k].(status := RolledBack)
  {
    var x := ReleaseRepo.GetByID(db.releases, releaseId).value;
    var i :| 0 <= i < |db.releases| && db.releases[i] == x;
    assert i == k;
  }

  lemma RollbackKeepsGood(db: Db, releaseId: int, author: string, now: int)
    requires Good(db)
    ensures Good(Rollback(db, releaseId, author, now).db)
  {
    var o := Rollback(db, releaseId, author, now);
    if ReleaseRepo.GetByID(db.releases, releaseId).Some? {
      var x := ReleaseRepo.GetByID(db.releases, releaseId).value;
      var k :| 0 <= k < |db.releases| && db.releases[k] == x;
      ReleaseUpdateKeepsGood(db, k, x.(status := RolledBack));
      var marked := db.(releases := ReleaseRepo.Update(db.releases, x.(status := RolledBack)));
      var target := PreviousVersion(marked.releases, x, releaseId);
      if target.Some? {
        InsertReleaseKeepsGood(marked, RollbackRelease(x, target.value, author), now);
      }
    }
  }

  /** After a successful rollback, a clock that has moved on makes the
      environment serve the previous version again. */
  lemma RollbackServesPrevious(db: Db, releaseId: int, author: string, now: int)
    requires Rollback(db, releaseId, author, now).result.Ok?
    requires forall i :: 0 <= i < |db.releases| ==> db.releases[i].releasedAt < now
    ensures var o := Rollback(db, releaseId, author, now);
      GetByEnv(o.db, o.result.value.configId, o.result.value.environment) == Some(o.result.value)
  {
    var o := Rollback(db, releaseId, author, now);
    var x := ReleaseRepo.GetByID(db.releases, releaseId).value;
    var marked := ReleaseRepo.Update(db.releases, x.(status := RolledBack));
    assert x.releasedAt < now by {
      var k :| 0 <= k < |db.releases| && db.releases[k] == x;
    }
    ReleaseRepo.UpdateKeepsOlder(db.releases, x.(status := RolledBack), now);
    var row := o.result.value;
    assert o.db.releases == marked + [row];
    assert row.releasedAt == now && row.status == Released;
    ReleaseRepo.NewestServed(marked, row);
  }

  const DefaultEnvironments := ["dev", "test", "staging", "prod"]

  /** ListEnvironments: the fixed list, whatever the project. */
  function ListEnvironments(projectId: int): (r: seq<string>)
    ensures r == DefaultEnvironments
  {
    DefaultEnvironments
  }
}
