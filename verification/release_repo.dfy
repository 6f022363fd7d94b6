/** The releases queries (internal/repository/release.go) over the rows of
    the table in primary-key order. "ORDER BY released_at DESC" with Find
    leaves ties in an unspecified order; the model keeps them in primary-key
    order. */
module ReleaseRepo {
  import opened Wrappers
  import opened Records
  import opened Seqs
  import opened Sorting

  /** GetByID (First by primary key). */
  function GetByID(rs: seq<Release>, id: int): (r: Option<Release>)
    ensures r.Some? ==> r.value in rs && r.value.id == id
    ensures r.None? <==> forall i :: 0 <= i < |rs| ==> rs[i].id != id
  {
    First(rs, (x: Release) => x.id == id)
  }

  /** The releases GetByConfigAndEnv chooses among: the config's releases in
      the environment whose status is "released" or "gray". */
  predicate Current(x: Release, configId: int, env: string) {
    x.configId == configId && x.environment == env && (x.status == Released || x.status == Gray)
  }

  /** GetByConfigAndEnv: the newest current release; First adds ORDER BY the
      primary key, so among equally new ones the first in the table. */
  function GetByConfigAndEnv(rs: seq<Release>, configId: int, env: string): (r: Option<Release>)
    ensures r.None? <==> forall i :: 0 <= i < |rs| ==> !Current(rs[i], configId, env)
    ensures r.Some? ==> r.value in rs && Current(r.value, configId, env)
    ensures r.Some? ==> forall i :: 0 <= i < |rs| && Current(rs[i], configId, env) ==>
      rs[i].releasedAt <= r.value.releasedAt
    ensures r.Some? ==>
      exists i :: 0 <= i < |rs| && rs[i] == r.value
        && (forall j :: 0 <= j < i && Current(rs[j], configId, env) ==> rs[j].releasedAt < r.value.releasedAt)
  {
    FirstMaxWhere(rs, (x: Release) => Current(x, configId, env), (x: Release) => x.releasedAt)
  }

  /** Newest first. */
  function NewestFirst(): (Release, Release) -> bool {
    DescendingBy((x: Release) => x.releasedAt)
  }

  /** List: all the config's releases, newest first. */
  function List(rs: seq<Release>, configId: int): (r: seq<Release>)
    ensures forall i, j :: 0 <= i < j < |r| ==> r[i].releasedAt >= r[j].releasedAt
    ensures forall x :: x in r <==> x in rs && x.configId == configId
    ensures multiset(r) == multiset(Filter(rs, (x: Release) => x.configId == configId))
  {
    var rows := Filter(rs, (x: Release) => x.configId == configId);
    DescendingIsPreorder((x: Release) => x.releasedAt);
    SortKeepsElementsAll(rows, NewestFirst());
    Sort(rows, NewestFirst())
  }

  /** ListByProject: all the project's releases, newest first. */
  function ListByProject(rs: seq<Release>, projectId: int): (r: seq<Release>)
    ensures forall i, j :: 0 <= i < j < |r| ==> r[i].releasedAt >= r[j].releasedAt
    ensures forall x :: x in r <==> x in rs && x.projectId == projectId
    ensures multiset(r) == multiset(Filter(rs, (x: Release) => x.projectId == projectId))
  {
    var rows := Filter(rs, (x: Release) => x.projectId == projectId);
    DescendingIsPreorder((x: Release) => x.releasedAt);
    SortKeepsElementsAll(rows, NewestFirst());
    Sort(rows, NewestFirst())
  }

  /** Update (gorm Save): the row with the same id is overwritten wholesale. */
  function Update(rs: seq<Release>, x: Release): (r: seq<Release>)
    ensures |r| == |rs|
    ensures forall i :: 0 <= i < |rs| && rs[i].id == x.id ==> r[i] == x
    ensures forall i :: 0 <= i < |rs| && rs[i].id != x.id ==> r[i] == rs[i]
  {
    Replace(rs, (y: Release) => y.id, x)
  }

  predicate ActiveGray(x: Release, configId: int, env: string) {
    x.configId == configId && x.environment == env && x.status == Gray
  }

  /** GetActiveGrayRelease: a gray release of the config in the environment
      (the lowest id), or nothing. */
  function GetActiveGrayRelease(rs: seq<Release>, configId: int, env: string): (r: Option<Release>)
    ensures r.Some? ==> r.value in rs && ActiveGray(r.value, configId, env)
    ensures r.None? <==> forall i :: 0 <= i < |rs| ==> !ActiveGray(rs[i], configId, env)
  {
    First(rs, (x: Release) => ActiveGray(x, configId, env))
  }

  /** A current release newer than every other row is the one served. */
  lemma NewestServed(rs: seq<Release>, row: Release)
    requires forall i :: 0 <= i < |rs| ==> rs[i].releasedAt < row.releasedAt
    requires Current(row, row.configId, row.environment)
    ensures GetByConfigAndEnv(rs + [row], row.configId, row.environment) == Some(row)
  {
    var all := rs + [row];
    assert all[|rs|] == row;
    var r := GetByConfigAndEnv(all, row.configId, row.environment);
    var j :| 0 <= j < |all| && all[j] == r.value;
    assert r.value.releasedAt >= row.releasedAt;
  }

  /** Saving a row no newer than `now` keeps every row older than `now`. */
  lemma UpdateKeepsOlder(rs: seq<Release>, x: Release, now: int)
    requires x.releasedAt < now
    requires forall i :: 0 <= i < |rs| ==> rs[i].releasedAt < now
    ensures forall i :: 0 <= i < |rs| ==> Update(rs, x)[i].releasedAt < now
  {
  }
}
