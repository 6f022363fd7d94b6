/** The configs queries (internal/repository/config.go) over the rows of the
    table in primary-key order. ORDER BY on text columns compares code points
    (the collation of the database is not modelled). */
module ConfigRepo {
  import opened Wrappers
  import opened Text
  import opened Records
  import opened Seqs
  import opened Sorting

  /** GetByID (First by primary key). */
  function GetByID(cs: seq<Config>, id: int): (r: Option<Config>)
    ensures r.Some? ==> r.value in cs && r.value.id == id
    ensures r.None? <==> forall i :: 0 <= i < |cs| ==> cs[i].id != id
  {
    First(cs, (c: Config) => c.id == id)
  }

  /** GetByProjectNamespaceEnv: the exact (project, namespace, environment,
      name) tuple. */
  function GetByProjectNamespaceEnv(cs: seq<Config>, projectId: int, namespace: string, env: string, name: string)
    : (r: Option<Config>)
    ensures r.Some? ==> r.value in cs && r.value.projectId == projectId && r.value.namespace == namespace
                        && r.value.environment == env && r.value.name == name
    ensures r.None? <==> forall i :: 0 <= i < |cs| ==>
      !(cs[i].projectId == projectId && cs[i].namespace == namespace && cs[i].environment == env && cs[i].name == name)
  {
    First(cs, (c: Config) => c.projectId == projectId && c.namespace == namespace && c.environment == env && c.name == name)
  }

  /** The filter GetByNameAndEnv builds: the namespace narrows only when it is
      given, and an empty environment selects configs with an empty (or NULL)
      environment. */
  predicate NameAndEnvMatch(c: Config, projectId: int, name: string, namespace: string, env: string) {
    && c.projectId == projectId && c.name == name
    && (namespace != "" ==> c.namespace == namespace)
    && c.environment == env
  }

  /** GetByNameAndEnv */
  function GetByNameAndEnv(cs: seq<Config>, projectId: int, name: string, namespace: string, env: string)
    : (r: Option<Config>)
    ensures r.Some? ==> r.value in cs && NameAndEnvMatch(r.value, projectId, name, namespace, env)
    ensures r.None? <==> forall i :: 0 <= i < |cs| ==> !NameAndEnvMatch(cs[i], projectId, name, namespace, env)
  {
    var envFilter := (c: Config) => if env != "" then c.environment == env else c.environment == "";
    First(cs, (c: Config) => c.projectId == projectId && c.name == name
                             && (namespace == "" || c.namespace == namespace) && envFilter(c))
  }

  /** Without a namespace the lookup ignores namespaces: any namespace is
      found. */
  lemma AnyNamespaceWhenEmpty(cs: seq<Config>, projectId: int, name: string, env: string, i: nat)
    requires i < |cs| && cs[i].projectId == projectId && cs[i].name == name && cs[i].environment == env
    ensures GetByNameAndEnv(cs, projectId, name, "", env).Some?
  {
    assert NameAndEnvMatch(cs[i], projectId, name, "", env);
  }

  function ByName(): (Config, Config) -> bool {
    (a: Config, b: Config) => LessEq(a.name, b.name)
  }

  function ByEnvironmentThenName(): (Config, Config) -> bool {
    (a: Config, b: Config) => Less(a.environment, b.environment)
                             || (a.environment == b.environment && LessEq(a.name, b.name))
  }

  lemma ByNameIsPreorder()
    ensures TotalPreorder(ByName())
  {
    forall a: Config, b: Config ensures ByName()(a, b) || ByName()(b, a) {
      LessTotal(a.name, b.name);
    }
    forall a: Config, b: Config, c: Config | ByName()(a, b) && ByName()(b, c) ensures ByName()(a, c) {
      LessTransitive(a.name, b.name, c.name);
    }
  }

  lemma ByEnvironmentThenNameIsPreorder()
    ensures TotalPreorder(ByEnvironmentThenName())
  {
    var le := ByEnvironmentThenName();
    forall a: Config, b: Config ensures le(a, b) || le(b, a) {
      LessTotal(a.environment, b.environment);
      LessTotal(a.name, b.name);
    }
    forall a: Config, b: Config, c: Config | le(a, b) && le(b, c) ensures le(a, c) {
      LessTransitive(a.environment, b.environment, c.environment);
      LessTransitive(a.name, b.name, c.name);
    }
  }

  /** List: the project's configs by name. */
  function List(cs: seq<Config>, projectId: int): (r: seq<Config>)
    ensures forall i, j :: 0 <= i < j < |r| ==> LessEq(r[i].name, r[j].name)
    ensures forall c :: c in r <==> c in cs && c.projectId == projectId
    ensures multiset(r) == multiset(Filter(cs, (c: Config) => c.projectId == projectId))
  {
    var rows := Filter(cs, (c: Config) => c.projectId == projectId);
    ByNameIsPreorder();
    SortKeepsElementsAll(rows, ByName());
    Sort(rows, ByName())
  }

  /** ListByNamespace: the project's configs in the namespace, by environment
      and then by name. */
  function ListByNamespace(cs: seq<Config>, projectId: int, namespace: string): (r: seq<Config>)
    ensures forall i, j :: 0 <= i < j < |r| ==>
      Less(r[i].environment, r[j].environment) || (r[i].environment == r[j].environment && LessEq(r[i].name, r[j].name))
    ensures forall c :: c in r <==> c in cs && c.projectId == projectId && c.namespace == namespace
    ensures multiset(r) == multiset(Filter(cs, (c: Config) => c.projectId == projectId && c.namespace == namespace))
  {
    var rows := Filter(cs, (c: Config) => c.projectId == projectId && c.namespace == namespace);
    ByEnvironmentThenNameIsPreorder();
    SortKeepsElementsAll(rows, ByEnvironmentThenName());
    Sort(rows, ByEnvironmentThenName())
  }

  /** Update (gorm Save): the row with the same id is overwritten. */
  function Update(cs: seq<Config>, c: Config): (r: seq<Config>)
    ensures |r| == |cs|
    ensures forall i :: 0 <= i < |cs| && cs[i].id == c.id ==> r[i] == c
    ensures forall i :: 0 <= i < |cs| && cs[i].id != c.id ==> r[i] == cs[i]
  {
    Replace(cs, (x: Config) => x.id, c)
  }

  /** IncrementVersion: current_version + 1 on the row with that id only. */
  function IncrementVersion(cs: seq<Config>, id: int): (r: seq<Config>)
    ensures |r| == |cs|
    ensures forall i :: 0 <= i < |cs| && cs[i].id == id ==>
      r[i] == cs[i].(currentVersion := cs[i].currentVersion + 1)
    ensures forall i :: 0 <= i < |cs| && cs[i].id != id ==> r[i] == cs[i]
  {
    seq(|cs|, i requires 0 <= i < |cs| =>
      if cs[i].id == id then cs[i].(currentVersion := cs[i].currentVersion + 1) else cs[i])
  }
}
