/** The three tables the configuration and release services share, with
    auto-increment counters, and the invariant every service operation keeps:
    each configuration's stored version numbers are distinct, lie in
    1..CurrentVersion, and include CurrentVersion itself — so CurrentVersion
    is the highest stored version. Every store operation is one atomic step. */
module Db {
  import opened Wrappers
  import opened Records
  import VersionRepo
  import ConfigRepo
  import ReleaseRepo
  import opened Errors

  datatype Db = Db(
    configs: seq<Config>,
    versions: seq<ConfigVersion>,
    releases: seq<Release>,
    nextConfigId: int,
    nextVersionId: int,
    nextReleaseId: int)

  /** What a service call leaves behind: the new tables and its answer. */
  datatype Outcome<T> = Outcome(db: Db, result: Result<T, Error>)

  const Empty := Db([], [], [], 1, 1, 1)

  /** Create on the configs table: the row gets the next id. */
  function InsertConfig(db: Db, c: Config): (r: (Db, Config))
    ensures r.1 == c.(id := db.nextConfigId)
    ensures r.0 == db.(configs := db.configs + [r.1], nextConfigId := db.nextConfigId + 1)
  {
    var row := c.(id := db.nextConfigId);
    (db.(configs := db.configs + [row], nextConfigId := db.nextConfigId + 1), row)
  }

  /** Create on the config_versions table. */
  function InsertVersion(db: Db, v: ConfigVersion): (r: (Db, ConfigVersion))
    ensures r.1 == v.(id := db.nextVersionId)
    ensures r.0 == db.(versions := db.versions + [r.1], nextVersionId := db.nextVersionId + 1)
  {
    var row := v.(id := db.nextVersionId);
    (db.(versions := db.versions + [row], nextVersionId := db.nextVersionId + 1), row)
  }

  /** Create on the releases table; `now` fills the autoCreateTime column. */
  function InsertRelease(db: Db, x: Release, now: int): (r: (Db, Release))
    ensures r.1 == x.(id := db.nextReleaseId, releasedAt := now)
    ensures r.0 == db.(releases := db.releases + [r.1], nextReleaseId := db.nextReleaseId + 1)
  {
    var row := x.(id := db.nextReleaseId, releasedAt := now);
    (db.(releases := db.releases + [row], nextReleaseId := db.nextReleaseId + 1), row)
  }

  // ---------------------------------------------------------------------------
  // The invariant
  // ---------------------------------------------------------------------------

  /** Primary keys are assigned in increasing order and below the counter. */
  predicate ConfigKeys(db: Db) {
    && (forall i, j :: 0 <= i < j < |db.configs| ==> db.configs[i].id < db.configs[j].id)
    && (forall i :: 0 <= i < |db.configs| ==> db.configs[i].id < db.nextConfigId)
  }

  predicate VersionKeys(db: Db) {
    && (forall i, j :: 0 <= i < j < |db.versions| ==> db.versions[i].id < db.versions[j].id)
    && (forall i :: 0 <= i < |db.versions| ==> db.versions[i].id < db.nextVersionId)
    && (forall i :: 0 <= i < |db.versions| ==> db.versions[i].configId < db.nextConfigId)
  }

  predicate ReleaseKeys(db: Db) {
    && (forall i, j :: 0 <= i < j < |db.releases| ==> db.releases[i].id < db.releases[j].id)
    && (forall i :: 0 <= i < |db.releases| ==> db.releases[i].id < db.nextReleaseId)
  }

  /** The version history of one configuration. */
  predicate History(vs: seq<ConfigVersion>, c: Config) {
    && c.currentVersion >= 1
    && (forall i :: 0 <= i < |vs| && vs[i].configId == c.id ==> 1 <= vs[i].version <= c.currentVersion)
    && (forall i, j :: 0 <= i < j < |vs| && vs[i].configId == c.id && vs[j].configId == c.id ==>
          vs[i].version != vs[j].version)
    && (exists i :: 0 <= i < |vs| && vs[i].configId == c.id && vs[i].version == c.currentVersion)
  }

  /** Within one configuration's history a version number names one row. */
  lemma HistoryRowsUnique(vs: seq<ConfigVersion>, c: Config, i: nat, j: nat)
    requires History(vs, c)
    requires i < |vs| && j < |vs| && vs[i].configId == c.id && vs[j].configId == c.id
    requires vs[i].version == vs[j].version
    ensures i == j
  {
  }

  predicate Histories(db: Db) {
    forall i :: 0 <= i < |db.configs| ==> History(db.versions, db.configs[i])
  }

  /** At most one release per (config, environment) is in gray status. */
  predicate OneGrayPerEnv(rs: seq<Release>) {
    forall i, j :: 0 <= i < j < |rs| && rs[i].status == Gray && rs[j].status == Gray ==>
      rs[i].configId != rs[j].configId || rs[i].environment != rs[j].environment
  }

  predicate Good(db: Db) {
    && ConfigKeys(db) && VersionKeys(db) && ReleaseKeys(db)
    && Histories(db)
    && OneGrayPerEnv(db.releases)
  }

  lemma EmptyIsGood()
    ensures Good(Empty)
  {
  }

  /** The invariant's point: the latest stored version of a configuration is
      the one CurrentVersion names. */
  lemma LatestIsCurrent(db: Db, c: Config)
    requires Good(db)
    requires c in db.configs
    ensures VersionRepo.GetLatest(db.versions, c.id).Some?
    ensures VersionRepo.GetLatest(db.versions, c.id).value.version == c.currentVersion
    ensures VersionRepo.GetByConfigAndVersion(db.versions, c.id, c.currentVersion).Some?
  {
    var k := ConfigIndex(db.configs, c);
    assert History(db.versions, c);
    var i :| 0 <= i < |db.versions| && db.versions[i].configId == c.id && db.versions[i].version == c.currentVersion;
    var latest := VersionRepo.GetLatest(db.versions, c.id);
    assert latest.Some?;
    var j :| 0 <= j < |db.versions| && db.versions[j] == latest.value;
  }

  /** The position of a stored configuration row. */
  lemma ConfigIndex(cs: seq<Config>, c: Config) returns (k: nat)
    requires c in cs
    ensures k < |cs| && cs[k] == c
  {
    k :| 0 <= k < |cs| && cs[k] == c;
  }

  /** Configuration ids are unique, so a lookup by id finds the stored row. */
  lemma GetByIDFinds(db: Db, k: nat)
    requires ConfigKeys(db)
    requires k < |db.configs|
    ensures ConfigRepo.GetByID(db.configs, db.configs[k].id) == Some(db.configs[k])
  {
    var r := ConfigRepo.GetByID(db.configs, db.configs[k].id);
    var i :| 0 <= i < |db.configs| && db.configs[i] == r.value && db.configs[i].id == db.configs[k].id;
    assert i == k;
  }

  /** Storing `row` as version CurrentVersion+1 of the stored configuration
      `c` under the next version id, and moving that configuration's pointer to
      it, keeps the invariant. Every service that writes a new version does
      exactly this; `db2` is the tables it leaves. */
  lemma AdvanceKeepsGood(db: Db, c: Config, row: ConfigVersion, db2: Db)
    requires Good(db)
    requires c in db.configs
    requires row.configId == c.id && row.version == c.currentVersion + 1
    requires row.id == db.nextVersionId
    requires db2.configs == ConfigRepo.Update(db.configs, c.(currentVersion := c.currentVersion + 1))
    requires db2.versions == db.versions + [row] && db2.releases == db.releases
    requires db2.nextConfigId == db.nextConfigId && db2.nextVersionId == db.nextVersionId + 1
    requires db2.nextReleaseId == db.nextReleaseId
    ensures Good(db2)
  {
    var k := ConfigIndex(db.configs, c);
    UpdateAt(db, k, c.(currentVersion := c.currentVersion + 1));
    HistoriesAdvance(db, k, row, db2);
    KeysAdvance(db, k, row, db2);
  }

  /** The key invariants once a version row with the next id is appended
      and row `k` of the configurations saved under its own id. */
  lemma KeysAdvance(db: Db, k: nat, row: ConfigVersion, db2: Db)
    requires ConfigKeys(db) && VersionKeys(db)
    requires k < |db.configs| && row.configId == db.configs[k].id && row.id == db.nextVersionId
    requires |db2.configs| == |db.configs| && db2.configs[k].id == db.configs[k].id
    requires forall i :: 0 <= i < |db.configs| && i != k ==> db2.configs[i] == db.configs[i]
    requires db2.versions == db.versions + [row]
    requires db2.nextConfigId == db.nextConfigId && db2.nextVersionId == db.nextVersionId + 1
    ensures ConfigKeys(db2) && VersionKeys(db2)
  {
    assert forall i :: 0 <= i < |db2.configs| ==> db2.configs[i].id == db.configs[i].id;
  }

  /** With ids increasing, saving a row with an existing id overwrites
      exactly that row. */
  lemma UpdateAt(db: Db, k: nat, c: Config)
    requires ConfigKeys(db)
    requires k < |db.configs| && c.id == db.configs[k].id
    ensures ConfigRepo.Update(db.configs, c) == db.configs[k := c]
  {
    var cs := ConfigRepo.Update(db.configs, c);
    forall i | 0 <= i < |cs| && i != k ensures cs[i] == db.configs[i] {
      if i < k { assert db.configs[i].id < db.configs[k].id; }
      if i > k { assert db.configs[k].id < db.configs[i].id; }
    }
  }

  /** The histories once version CurrentVersion+1 of row `k` is appended and
      its pointer advanced. */
  lemma HistoriesAdvance(db: Db, k: nat, row: ConfigVersion, db2: Db)
    requires ConfigKeys(db) && Histories(db)
    requires k < |db.configs|
    requires row.configId == db.configs[k].id && row.version == db.configs[k].currentVersion + 1
    requires db2.configs == db.configs[k := db.configs[k].(currentVersion := db.configs[k].currentVersion + 1)]
    requires db2.versions == db.versions + [row]
    ensures Histories(db2)
  {
    var c := db.configs[k];
    var cs := db2.configs;
    var vs := db2.versions;
    assert History(db.versions, c);
    HistoryAdvances(db.versions, c, row);
    forall i | 0 <= i < |cs| ensures History(vs, cs[i]) {
      if i != k {
        assert History(db.versions, db.configs[i]);
        if i < k { assert db.configs[i].id < db.configs[k].id; }
        if i > k { assert db.configs[k].id < db.configs[i].id; }
        OtherHistoryKept(db.versions, db.configs[i], row);
      }
    }
  }

  /** Saving a configuration row with its id and CurrentVersion unchanged
      (a new schema, say) keeps the invariant. */
  lemma SaveKeepsGood(db: Db, k: nat, c: Config)
    requires Good(db)
    requires k < |db.configs|
    requires c.id == db.configs[k].id && c.currentVersion == db.configs[k].currentVersion
    ensures ConfigRepo.Update(db.configs, c) == db.configs[k := c]
    ensures Good(db.(configs := ConfigRepo.Update(db.configs, c)))
  {
    var cs := ConfigRepo.Update(db.configs, c);
    forall i | 0 <= i < |cs| && i != k ensures cs[i] == db.configs[i] {
      if i < k { assert db.configs[i].id < db.configs[k].id; }
      if i > k { assert db.configs[k].id < db.configs[i].id; }
    }
    assert cs == db.configs[k := c];
    assert History(db.versions, db.configs[k]);
  }

  /** A new configuration with CurrentVersion 1 and its first version keep
      the invariant. */
  lemma CreateKeepsGood(db: Db, c: Config, v: ConfigVersion)
    requires Good(db)
    requires c.currentVersion == 1
    requires v.configId == db.nextConfigId && v.version == 1
    ensures Good(InsertVersion(InsertConfig(db, c).0, v).0)
  {
    var (db1, c1) := InsertConfig(db, c);
    var (db2, row) := InsertVersion(db1, v);
    var vs := db2.versions;
    var n := |db.versions|;
    assert vs[n] == row;
    forall k | 0 <= k < |db2.configs| ensures History(vs, db2.configs[k]) {
      if k < |db.configs| {
        assert db2.configs[k] == db.configs[k];
        assert History(db.versions, db.configs[k]);
        OtherHistoryKept(db.versions, db.configs[k], row);
      } else {
        assert db2.configs[k] == c1;
        assert forall i :: 0 <= i < n ==> vs[i].configId != c1.id;
      }
    }
  }

  lemma HistoryAdvances(vs: seq<ConfigVersion>, c: Config, row: ConfigVersion)
    requires History(vs, c)
    requires row.configId == c.id && row.version == c.currentVersion + 1
    ensures History(vs + [row], c.(currentVersion := c.currentVersion + 1))
  {
    var vs' := vs + [row];
    assert vs'[|vs|] == row;
  }

  lemma OtherHistoryKept(vs: seq<ConfigVersion>, c: Config, row: ConfigVersion)
    requires History(vs, c)
    requires row.configId != c.id
    ensures History(vs + [row], c)
  {
    var i :| 0 <= i < |vs| && vs[i].configId == c.id && vs[i].version == c.currentVersion;
    assert (vs + [row])[i] == vs[i];
  }

  /** Overwriting a release row keeps the invariant when the row does not
      become a second gray release of its configuration and environment. */
  lemma ReleaseUpdateKeepsGood(db: Db, k: nat, x: Release)
    requires Good(db)
    requires k < |db.releases| && x.id == db.releases[k].id
    requires x.status != Gray
      || (db.releases[k].status == Gray && x.configId == db.releases[k].configId
          && x.environment == db.releases[k].environment)
    ensures Good(db.(releases := ReleaseRepo.Update(db.releases, x)))
  {
    var rs := db.releases;
    var rs' := ReleaseRepo.Update(rs, x);
    forall i | 0 <= i < |rs| && i != k ensures rs'[i] == rs[i] {
      if i < k { assert rs[i].id < rs[k].id; }
      if i > k { assert rs[k].id < rs[i].id; }
    }
    assert rs'[k] == x;
    forall i, j | 0 <= i < j < |rs'| && rs'[i].status == Gray && rs'[j].status == Gray
      ensures rs'[i].configId != rs'[j].configId || rs'[i].environment != rs'[j].environment
    {
      assert rs[i].status == Gray && rs[j].status == Gray;
    }
  }

  /** Adding a release keeps the invariant unless it is a second gray
      release of its configuration and environment. */
  lemma InsertReleaseKeepsGood(db: Db, x: Release, now: int)
    requires Good(db)
    requires x.status == Gray ==> ReleaseRepo.GetActiveGrayRelease(db.releases, x.configId, x.environment).None?
    ensures Good(InsertRelease(db, x, now).0)
  {
    var (db1, row) := InsertRelease(db, x, now);
    var rs := db1.releases;
    assert rs[|db.releases|] == row;
    forall i, j | 0 <= i < j < |rs| && rs[i].status == Gray && rs[j].status == Gray
      ensures rs[i].configId != rs[j].configId || rs[i].environment != rs[j].environment
    {
      if j == |db.releases| {
        assert !ReleaseRepo.ActiveGray(db.releases[i], x.configId, x.environment);
      }
    }
  }
}
