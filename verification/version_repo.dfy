/** The config_versions queries (internal/repository/version.go) over the
    rows of the table in primary-key order. */
module VersionRepo {
  import opened Wrappers
  import opened Records
  import opened Seqs
  import opened Sorting

  predicate RowOf(v: ConfigVersion, configId: int) {
    v.configId == configId
  }

  /** GetByConfigAndVersion: the row with both the config id and the version
      number, if there is one. */
  function GetByConfigAndVersion(vs: seq<ConfigVersion>, configId: int, version: int): (r: Option<ConfigVersion>)
    ensures r.Some? ==> r.value in vs && r.value.configId == configId && r.value.version == version
    ensures r.None? <==> forall i :: 0 <= i < |vs| ==> !(vs[i].configId == configId && vs[i].version == version)
  {
    First(vs, (v: ConfigVersion) => v.configId == configId && v.version == version)
  }

  /** The config's rows, in table order. */
  function Rows(vs: seq<ConfigVersion>, configId: int): (r: seq<ConfigVersion>)
    ensures forall v :: v in r <==> v in vs && v.configId == configId
  {
    Filter(vs, (v: ConfigVersion) => v.configId == configId)
  }

  /** GetLatest: the config's row with the highest version number; among
      equal numbers the first row. */
  function GetLatest(vs: seq<ConfigVersion>, configId: int): (r: Option<ConfigVersion>)
    ensures r.None? <==> forall i :: 0 <= i < |vs| ==> vs[i].configId != configId
    ensures r.Some? ==> r.value in vs && r.value.configId == configId
    ensures r.Some? ==> forall i :: 0 <= i < |vs| && vs[i].configId == configId ==> vs[i].version <= r.value.version
  {
    var rows := Rows(vs, configId);
    var r := FirstMax(rows, (v: ConfigVersion) => v.version);
    assert forall i :: 0 <= i < |vs| && vs[i].configId == configId ==> vs[i] in rows;
    r
  }

  /** List: the config's versions, highest number first. */
  function List(vs: seq<ConfigVersion>, configId: int): (r: seq<ConfigVersion>)
    ensures forall i, j :: 0 <= i < j < |r| ==> r[i].version >= r[j].version
    ensures multiset(r) == multiset(Rows(vs, configId))
    ensures forall v :: v in r <==> v in vs && v.configId == configId
  {
    var key := (v: ConfigVersion) => v.version;
    DescendingIsPreorder(key);
    var r := Sort(Rows(vs, configId), DescendingBy(key));
    SortKeepsElementsAll(Rows(vs, configId), DescendingBy(key));
    r
  }

  /** GetVersionsSince: exactly the config's versions numbered above `since`,
      lowest number first. */
  function GetVersionsSince(vs: seq<ConfigVersion>, configId: int, since: int): (r: seq<ConfigVersion>)
    ensures forall i, j :: 0 <= i < j < |r| ==> r[i].version <= r[j].version
    ensures forall v :: v in r <==> v in vs && v.configId == configId && v.version > since
    ensures multiset(r) == multiset(Filter(vs, (v: ConfigVersion) => v.configId == configId && v.version > since))
  {
    var key := (v: ConfigVersion) => v.version;
    var rows := Filter(vs, (v: ConfigVersion) => v.configId == configId && v.version > since);
    AscendingIsPreorder(key);
    SortKeepsElementsAll(rows, AscendingBy(key));
    Sort(rows, AscendingBy(key))
  }

  /** DeleteByConfigID: every row of the config goes, every other row stays
      in place. */
  function DeleteByConfigID(vs: seq<ConfigVersion>, configId: int): (r: seq<ConfigVersion>)
    ensures forall v :: v in r <==> v in vs && v.configId != configId
  {
    Filter(vs, (v: ConfigVersion) => v.configId != configId)
  }

  /** Update (gorm Save): the row with the same id is overwritten. */
  function Update(vs: seq<ConfigVersion>, v: ConfigVersion): (r: seq<ConfigVersion>)
    ensures |r| == |vs|
    ensures forall i :: 0 <= i < |vs| && vs[i].id == v.id ==> r[i] == v
    ensures forall i :: 0 <= i < |vs| && vs[i].id != v.id ==> r[i] == vs[i]
  {
    Replace(vs, (x: ConfigVersion) => x.id, v)
  }
}
