/** The tables behind projects and API keys (projects, project_environments,
    project_keys), as rows in primary-key order with the next key of each. */
module Registry {
  import opened Wrappers
  import opened Records
  import opened Seqs

  datatype Registry = Registry(
    projects: seq<Project>,
    environments: seq<ProjectEnvironment>,
    keys: seq<ProjectKey>,
    nextProjectId: int,
    nextEnvironmentId: int,
    nextKeyId: int)

  const Empty := Registry([], [], [], 1, 1, 1)

  function GetProject(ps: seq<Project>, id: int): (r: Option<Project>)
    ensures r.Some? ==> r.value in ps && r.value.id == id
    ensures r.None? <==> forall i :: 0 <= i < |ps| ==> ps[i].id != id
  {
    First(ps, (p: Project) => p.id == id)
  }

  predicate ExistsByName(ps: seq<Project>, name: string) {
    exists i :: 0 <= i < |ps| && ps[i].name == name
  }

  /** Save: the row with the same id is overwritten. */
  function UpdateProject(ps: seq<Project>, p: Project): (r: seq<Project>)
    ensures |r| == |ps|
    ensures forall i :: 0 <= i < |ps| ==> r[i] == (if ps[i].id == p.id then p else ps[i])
  {
    Replace(ps, (x: Project) => x.id, p)
  }

  function InsertProject(reg: Registry, p: Project): (r: (Registry, Project))
    ensures r.1 == p.(id := reg.nextProjectId)
    ensures r.0 == reg.(projects := reg.projects + [r.1], nextProjectId := reg.nextProjectId + 1)
  {
    var row := p.(id := reg.nextProjectId);
    (reg.(projects := reg.projects + [row], nextProjectId := reg.nextProjectId + 1), row)
  }

  function InsertEnvironment(reg: Registry, e: ProjectEnvironment): (r: (Registry, ProjectEnvironment))
    ensures r.1 == e.(id := reg.nextEnvironmentId)
    ensures r.0 == reg.(environments := reg.environments + [r.1], nextEnvironmentId := reg.nextEnvironmentId + 1)
  {
    var row := e.(id := reg.nextEnvironmentId);
    (reg.(environments := reg.environments + [row], nextEnvironmentId := reg.nextEnvironmentId + 1), row)
  }

  function GetKey(ks: seq<ProjectKey>, id: int): (r: Option<ProjectKey>)
    ensures r.Some? ==> r.value in ks && r.value.id == id
    ensures r.None? <==> forall i :: 0 <= i < |ks| ==> ks[i].id != id
  {
    First(ks, (k: ProjectKey) => k.id == id)
  }

  function GetKeyByAccessKey(ks: seq<ProjectKey>, accessKey: string): (r: Option<ProjectKey>)
    ensures r.Some? ==> r.value in ks && r.value.accessKey == accessKey
    ensures r.None? <==> forall i :: 0 <= i < |ks| ==> ks[i].accessKey != accessKey
  {
    First(ks, (k: ProjectKey) => k.accessKey == accessKey)
  }

  function UpdateKey(ks: seq<ProjectKey>, k: ProjectKey): (r: seq<ProjectKey>)
    ensures |r| == |ks|
    ensures forall i :: 0 <= i < |ks| ==> r[i] == (if ks[i].id == k.id then k else ks[i])
  {
    Replace(ks, (x: ProjectKey) => x.id, k)
  }

  function InsertKey(reg: Registry, k: ProjectKey): (r: (Registry, ProjectKey))
    ensures r.1 == k.(id := reg.nextKeyId)
    ensures r.0 == reg.(keys := reg.keys + [r.1], nextKeyId := reg.nextKeyId + 1)
  {
    var row := k.(id := reg.nextKeyId);
    (reg.(keys := reg.keys + [row], nextKeyId := reg.nextKeyId + 1), row)
  }

  /** Primary keys increase along each table and stay below its counter, so
      a save by id touches exactly one row. */
  predicate Good(reg: Registry) {
    && (forall i, j :: 0 <= i < j < |reg.projects| ==> reg.projects[i].id < reg.projects[j].id)
    && (forall i :: 0 <= i < |reg.projects| ==> reg.projects[i].id < reg.nextProjectId)
    && (forall i, j :: 0 <= i < j < |reg.keys| ==> reg.keys[i].id < reg.keys[j].id)
    && (forall i :: 0 <= i < |reg.keys| ==> reg.keys[i].id < reg.nextKeyId)
    && (forall i :: 0 <= i < |reg.environments| ==> reg.environments[i].id < reg.nextEnvironmentId)
  }

  /** Saving a project that was read by id changes that row only. */
  lemma UpdateProjectAt(reg: Registry, k: nat, p: Project)
    requires Good(reg)
    requires k < |reg.projects| && p.id == reg.projects[k].id
    ensures UpdateProject(reg.projects, p) == reg.projects[k := p]
    ensures Good(reg.(projects := UpdateProject(reg.projects, p)))
  {
    var ps := reg.projects;
    forall i | 0 <= i < |ps| && i != k ensures ps[i].id != p.id {
      if i < k { assert ps[i].id < ps[k].id; }
      if i > k { assert ps[k].id < ps[i].id; }
    }
  }

  /** After that save, reading the id back gives the saved row. */
  lemma GetProjectAfterUpdate(reg: Registry, k: nat, p: Project)
    requires Good(reg)
    requires k < |reg.projects| && p.id == reg.projects[k].id
    ensures GetProject(reg.projects[k := p], p.id) == Some(p)
  {
    var ps := reg.projects[k := p];
    forall i | 0 <= i < |ps| && i != k ensures ps[i].id != p.id {
      if i < k { assert ps[i].id < reg.projects[k].id; }
      if i > k { assert reg.projects[k].id < ps[i].id; }
    }
    assert ps[k] == p;
    var r := GetProject(ps, p.id);
    var j :| 0 <= j < |ps| && ps[j] == r.value;
    assert j == k;
  }

  /** Saving a key that was read by id changes that row only. */
  lemma UpdateKeyAt(reg: Registry, k: nat, key: ProjectKey)
    requires Good(reg)
    requires k < |reg.keys| && key.id == reg.keys[k].id
    ensures UpdateKey(reg.keys, key) == reg.keys[k := key]
    ensures Good(reg.(keys := UpdateKey(reg.keys, key)))
  {
    var ks := reg.keys;
    forall i | 0 <= i < |ks| && i != k ensures ks[i].id != key.id {
      if i < k { assert ks[i].id < ks[k].id; }
      if i > k { assert ks[k].id < ks[i].id; }
    }
  }

  function ProjectId(p: Project): int { p.id }
  function KeyId(k: ProjectKey): int { k.id }

  /** Delete a project row by id. */
  function DeleteProject(ps: seq<Project>, id: int): (r: seq<Project>)
    ensures forall p :: p in r <==> p in ps && p.id != id
  {
    Remove(ps, ProjectId, id)
  }

  /** Delete a key row by id. */
  function DeleteKey(ks: seq<ProjectKey>, id: int): (r: seq<ProjectKey>)
    ensures forall k :: k in r <==> k in ks && k.id != id
  {
    Remove(ks, KeyId, id)
  }

  /** Deleting a project keeps the tables well formed. */
  lemma DeleteProjectKeepsGood(reg: Registry, id: int)
    requires Good(reg)
    ensures Good(reg.(projects := DeleteProject(reg.projects, id)))
  {
    assert Increasing(reg.projects, ProjectId);
    RemoveKeepsIncreasing(reg.projects, ProjectId, id);
    var ps := DeleteProject(reg.projects, id);
    assert Increasing(ps, ProjectId);
    forall i | 0 <= i < |ps| ensures ps[i].id < reg.nextProjectId {
      assert ps[i] in reg.projects;
    }
  }

  /** Deleting a key keeps the tables well formed. */
  lemma DeleteKeyKeepsGood(reg: Registry, id: int)
    requires Good(reg)
    ensures Good(reg.(keys := DeleteKey(reg.keys, id)))
  {
    assert Increasing(reg.keys, KeyId);
    RemoveKeepsIncreasing(reg.keys, KeyId, id);
    var ks := DeleteKey(reg.keys, id);
    assert Increasing(ks, KeyId);
    forall i | 0 <= i < |ks| ensures ks[i].id < reg.nextKeyId {
      assert ks[i] in reg.keys;
    }
  }
}
