/** The project service: creating a project together with its four default
    environments and its default API key, editing and deleting it. The UUID
    generator and bcrypt are parameters, as in the key service. */
module ProjectService {
  import opened Wrappers
  import opened Records
  import opened Errors
  import Codecs
  import Registry
  import KeyService
  import Access
  import Middleware

  /** CreateProjectRequest */
  datatype CreateRequest = CreateRequest(
    name: string,
    description: string,
    accessMode: string,
    gitRepoUrl: string,
    gitBranch: string)

  /** The public permissions every new project starts with. */
  const PublicFlags: map<string, bool> := map["read" := true, "write" := false]

  /** The environments every new project starts with, in sort order. */
  const DefaultEnvironmentNames: seq<string> := ["dev", "test", "staging", "prod"]

  /** The name of a project's default key ("default key"). */
  const DefaultKeyName := "默认密钥"

  /** A created project: the tables after the writes, the project row and
      the default key as handed back. */
  datatype Created = Created(reg: Registry.Registry, project: Project, key: ProjectKey)

  /** Project names are unique (the column carries a unique index). */
  predicate UniqueNames(ps: seq<Project>) {
    forall i, j :: 0 <= i < |ps| && 0 <= j < |ps| && ps[i].name == ps[j].name ==> i == j
  }

  /** The environments of `names`, inserted in order, with sort orders
      counting up from `order`. */
  function InsertEnvironments(reg: Registry.Registry, projectId: int, names: seq<string>, order: int)
    : (r: Registry.Registry)
    ensures r.projects == reg.projects && r.keys == reg.keys
    ensures r.nextProjectId == reg.nextProjectId && r.nextKeyId == reg.nextKeyId
    ensures r.nextEnvironmentId == reg.nextEnvironmentId + |names|
    ensures |r.environments| == |reg.environments| + |names|
    ensures r.environments[..|reg.environments|] == reg.environments
    ensures forall i :: 0 <= i < |names| ==>
      r.environments[|reg.environments| + i] == ProjectEnvironment(reg.nextEnvironmentId + i, projectId, names[i], "", order + i)
    decreases |names|
  {
    if |names| == 0 then reg
    else
      var (reg', _) := Registry.InsertEnvironment(reg, ProjectEnvironment(0, projectId, names[0], "", order));
      var r := InsertEnvironments(reg', projectId, names[1..], order + 1);
      assert forall i :: 1 <= i < |names| ==> names[i] == names[1..][i - 1];
      r
  }

  /** The stored default key of a project: read and write, no whitelist, no
      expiry, active. */
  function DefaultKeyRow(codecs: Codecs.Codecs, hash: KeyService.Hasher, projectId: int,
                         uuid1: string, uuid2: string): (k: ProjectKey)
    requires |uuid1| == KeyService.UuidLength && |uuid2| == KeyService.UuidLength
    ensures k.projectId == projectId && k.isActive && k.expiresAt.None? && k.ipWhitelist == ""
    ensures k.accessKey == KeyService.AccessKeyOf(uuid1)
    ensures k.secretKeyHash == hash(KeyService.SecretKeyOf(uuid2))
  {
    ProjectKey(0, projectId, DefaultKeyName, KeyService.AccessKeyOf(uuid1), hash(KeyService.SecretKeyOf(uuid2)),
               codecs.encodePermissions(DefaultPermissions), "", None, true)
  }

  /** Create: the name is required and must be free; the project gets the
      default access mode "key" and branch "main" when the request leaves
      them empty, its four environments, and a default key, which is handed
      back without its secret. */
  function Create(reg: Registry.Registry, codecs: Codecs.Codecs, hash: KeyService.Hasher, req: CreateRequest,
                  userId: int, uuid1: string, uuid2: string): (r: Result<Created, Error>)
    requires |uuid1| == KeyService.UuidLength && |uuid2| == KeyService.UuidLength
    ensures r == Err(ProjectNameRequired) <==> req.name == ""
    ensures r == Err(ProjectNameExists) <==> req.name != "" && Registry.ExistsByName(reg.projects, req.name)
    ensures r.Ok? <==> req.name != "" && !Registry.ExistsByName(reg.projects, req.name)
    ensures r.Ok? ==> r.value.reg.projects == reg.projects + [r.value.project]
    ensures r.Ok? ==> r.value.project.id == reg.nextProjectId && r.value.project.name == req.name
    ensures r.Ok? ==> r.value.project.createdBy == userId && r.value.project.settings == ""
    ensures r.Ok? ==> r.value.key.projectId == r.value.project.id && r.value.key.secretKeyHash == ""
    ensures r.Ok? ==> r.value.reg.keys == reg.keys + [r.value.key.(secretKeyHash := hash(KeyService.SecretKeyOf(uuid2)))]
  {
    if req.name == "" then Err(ProjectNameRequired)
    else if Registry.ExistsByName(reg.projects, req.name) then Err(ProjectNameExists)
    else
      var row := Project(0, req.name, req.description,
                         if req.accessMode == "" then "key" else req.accessMode,
                         codecs.encodeFlags(PublicFlags), "", req.gitRepoUrl,
                         if req.gitBranch == "" then "main" else req.gitBranch, "", userId);
      var (reg1, project) := Registry.InsertProject(reg, row);
      var reg2 := InsertEnvironments(reg1, project.id, DefaultEnvironmentNames, 0);
      var (reg3, key) := Registry.InsertKey(reg2, DefaultKeyRow(codecs, hash, project.id, uuid1, uuid2));
      Ok(Created(reg3, project, key.(secretKeyHash := "")))
  }

  /** The defaults of a new project: access mode "key" and branch "main"
      unless the request names others, and public permissions that read
      back as read-only. */
  lemma CreatedProjectDefaults(reg: Registry.Registry, codecs: Codecs.Codecs, hash: KeyService.Hasher,
                               req: CreateRequest, userId: int, uuid1: string, uuid2: string)
    requires Codecs.PermissionsLawful(codecs)
    requires |uuid1| == KeyService.UuidLength && |uuid2| == KeyService.UuidLength
    requires req.name != "" && !Registry.ExistsByName(reg.projects, req.name)
    ensures var p := Create(reg, codecs, hash, req, userId, uuid1, uuid2).value.project;
      && (req.accessMode == "" ==> p.accessMode == "key")
      && (req.accessMode != "" ==> p.accessMode == req.accessMode)
      && (req.gitBranch != "" ==> p.gitBranch == req.gitBranch)
      && (req.gitBranch == "" ==> p.gitBranch == "main")
      && Access.DecodePermissions(codecs, p.publicPermissions) == Codecs.Decoded(Middleware.ReadOnly, false)
  {
    var p := Create(reg, codecs, hash, req, userId, uuid1, uuid2).value.project;
    assert p.publicPermissions == codecs.encodeFlags(PublicFlags);
    PublicFlagsReadOnly(codecs);
  }

  /** The public permissions a project is created with decode as read-only. */
  lemma PublicFlagsReadOnly(codecs: Codecs.Codecs)
    requires Codecs.PermissionsLawful(codecs)
    ensures Access.DecodePermissions(codecs, codecs.encodeFlags(PublicFlags)) == Codecs.Decoded(Middleware.ReadOnly, false)
  {
    assert codecs.decodePermissions(codecs.encodeFlags(PublicFlags)) == Codecs.Decoded(Codecs.FromMap(PublicFlags), false);
    assert codecs.encodeFlags(PublicFlags) != "";
    forall name | name in PermissionNames
      ensures Flag(Codecs.FromMap(PublicFlags), name) == Flag(Middleware.ReadOnly, name)
    {
      Codecs.FromMapExactNames(PublicFlags, name);
    }
    KeyService.ReadOnlyByFlags(Codecs.FromMap(PublicFlags));
  }

  /** A new project gets exactly four environments: dev, test, staging and
      prod, with sort orders 0 to 3. */
  lemma CreatedEnvironments(reg: Registry.Registry, codecs: Codecs.Codecs, hash: KeyService.Hasher,
                            req: CreateRequest, userId: int, uuid1: string, uuid2: string)
    requires |uuid1| == KeyService.UuidLength && |uuid2| == KeyService.UuidLength
    requires req.name != "" && !Registry.ExistsByName(reg.projects, req.name)
    ensures var c := Create(reg, codecs, hash, req, userId, uuid1, uuid2).value;
      && |c.reg.environments| == |reg.environments| + 4
      && c.reg.environments[..|reg.environments|] == reg.environments
      && forall i :: 0 <= i < 4 ==>
           var e := c.reg.environments[|reg.environments| + i];
           e.projectId == c.project.id && e.name == DefaultEnvironmentNames[i] && e.sortOrder == i
  {
  }

  /** The default key of a new project, under a fresh access key, is
      granted reading and writing from any address and nothing else. */
  lemma DefaultKeyReadsAndWrites(reg: Registry.Registry, codecs: Codecs.Codecs, hash: KeyService.Hasher,
                                 req: CreateRequest, userId: int, uuid1: string, uuid2: string,
                                 clientIP: string, permission: string, now: int)
    requires Codecs.PermissionsLawful(codecs)
    requires |uuid1| == KeyService.UuidLength && |uuid2| == KeyService.UuidLength
    requires req.name != "" && !Registry.ExistsByName(reg.projects, req.name)
    requires forall i :: 0 <= i < |reg.keys| ==> reg.keys[i].accessKey != KeyService.AccessKeyOf(uuid1)
    ensures var c := Create(reg, codecs, hash, req, userId, uuid1, uuid2).value;
      var r := Access.ValidateAccess(codecs, c.reg.keys, c.key.accessKey, clientIP, permission, now);
      r.Ok? <==> permission in {"", "read", "write"}
  {
    var c := Create(reg, codecs, hash, req, userId, uuid1, uuid2).value;
    var stored := c.key.(secretKeyHash := hash(KeyService.SecretKeyOf(uuid2)));
    var keys := c.reg.keys;
    assert keys[|reg.keys|] == stored;
    var found := Registry.GetKeyByAccessKey(keys, c.key.accessKey);
    assert found.Some?;
    var j :| 0 <= j < |keys| && keys[j] == found.value;
    assert j == |reg.keys|;
    assert codecs.decodePermissions(codecs.encodePermissions(DefaultPermissions)) == Codecs.Decoded(DefaultPermissions, false);
    assert codecs.encodePermissions(DefaultPermissions) != "";
  }

  /** Creating a project keeps the tables well formed. */
  lemma CreateKeepsGood(reg: Registry.Registry, codecs: Codecs.Codecs, hash: KeyService.Hasher,
                        req: CreateRequest, userId: int, uuid1: string, uuid2: string)
    requires Registry.Good(reg)
    requires |uuid1| == KeyService.UuidLength && |uuid2| == KeyService.UuidLength
    requires req.name != "" && !Registry.ExistsByName(reg.projects, req.name)
    ensures Registry.Good(Create(reg, codecs, hash, req, userId, uuid1, uuid2).value.reg)
  {
  }

  /** Creating a project keeps the names unique, and the name is taken from
      then on. */
  lemma CreateTakesName(reg: Registry.Registry, codecs: Codecs.Codecs, hash: KeyService.Hasher,
                        req: CreateRequest, userId: int, uuid1: string, uuid2: string)
    requires UniqueNames(reg.projects)
    requires |uuid1| == KeyService.UuidLength && |uuid2| == KeyService.UuidLength
    requires req.name != "" && !Registry.ExistsByName(reg.projects, req.name)
    ensures var c := Create(reg, codecs, hash, req, userId, uuid1, uuid2).value;
      && UniqueNames(c.reg.projects)
      && Create(c.reg, codecs, hash, req, userId, uuid1, uuid2) == Err(ProjectNameExists)
  {
    var c := Create(reg, codecs, hash, req, userId, uuid1, uuid2).value;
    var ps := c.reg.projects;
    assert ps[|reg.projects|] == c.project;
    forall i, j | 0 <= i < |ps| && 0 <= j < |ps| && ps[i].name == ps[j].name ensures i == j {
      if i < |reg.projects| && j < |reg.projects| {
        assert reg.projects[i] == ps[i] && reg.projects[j] == ps[j];
      }
    }
    assert Registry.ExistsByName(ps, req.name);
  }

  /** GetByID: ProjectNotFound when no project has the id. */
  function GetById(reg: Registry.Registry, id: int): (r: Result<Project, Error>)
    ensures r.Err? <==> forall i :: 0 <= i < |reg.projects| ==> reg.projects[i].id != id
    ensures r.Err? ==> r.error == ProjectNotFound
    ensures r.Ok? ==> r.value in reg.projects && r.value.id == id
  {
    match Registry.GetProject(reg.projects, id)
    case None => Err(ProjectNotFound)
    case Some(p) => Ok(p)
  }

  /** UpdateProjectRequest: empty members change nothing. */
  datatype UpdateRequest = UpdateRequest(
    name: string,
    description: string,
    accessMode: string,
    gitRepoUrl: string,
    gitBranch: string)

  const NoChanges := UpdateRequest("", "", "", "", "")

  /** Whether the request renames the project. */
  predicate Renames(p: Project, req: UpdateRequest) {
    req.name != "" && req.name != p.name
  }

  /** The project with the request's non-empty members applied. */
  function Apply(p: Project, req: UpdateRequest): (q: Project)
    ensures q.id == p.id && q.publicPermissions == p.publicPermissions && q.settings == p.settings
    ensures q.webhookSecret == p.webhookSecret && q.createdBy == p.createdBy
    ensures q.name == p.name <==> !Renames(p, req)
    ensures req.description == "" ==> q.description == p.description
    ensures req.accessMode == "" ==> q.accessMode == p.accessMode
    ensures req.gitRepoUrl == "" ==> q.gitRepoUrl == p.gitRepoUrl
    ensures req.gitBranch == "" ==> q.gitBranch == p.gitBranch
  {
    p.(name := if Renames(p, req) then req.name else p.name,
       description := if req.description != "" then req.description else p.description,
       accessMode := if req.accessMode != "" then req.accessMode else p.accessMode,
       gitRepoUrl := if req.gitRepoUrl != "" then req.gitRepoUrl else p.gitRepoUrl,
       gitBranch := if req.gitBranch != "" then req.gitBranch else p.gitBranch)
  }

  /** Update: an unknown id is ProjectNotFound; a rename to a name some
      project has is ProjectNameExists; otherwise the row is saved with the
      changes applied. */
  function Update(reg: Registry.Registry, id: int, req: UpdateRequest): (r: Result<Registry.Registry, Error>)
    ensures r == Err(ProjectNotFound) <==> Registry.GetProject(reg.projects, id).None?
    ensures r == Err(ProjectNameExists) <==> (Registry.GetProject(reg.projects, id).Some?
      && Renames(Registry.GetProject(reg.projects, id).value, req) && Registry.ExistsByName(reg.projects, req.name))
    ensures r.Err? ==> r.error in {ProjectNotFound, ProjectNameExists}
    ensures r.Ok? ==> r.value.keys == reg.keys && r.value.environments == reg.environments
  {
    match Registry.GetProject(reg.projects, id)
    case None => Err(ProjectNotFound)
    case Some(p) =>
      if Renames(p, req) && Registry.ExistsByName(reg.projects, req.name) then Err(ProjectNameExists)
      else Ok(reg.(projects := Registry.UpdateProject(reg.projects, Apply(p, req))))
  }

  /** The row of a project in the table. */
  lemma ProjectIndex(reg: Registry.Registry, id: int) returns (k: nat)
    requires Registry.GetProject(reg.projects, id).Some?
    ensures k < |reg.projects| && reg.projects[k] == Registry.GetProject(reg.projects, id).value
  {
    var p := Registry.GetProject(reg.projects, id).value;
    k :| 0 <= k < |reg.projects| && reg.projects[k] == p;
  }

  /** An update that goes through keeps the tables well formed and reads
      back as the changed project. */
  lemma UpdateReadsBack(reg: Registry.Registry, id: int, req: UpdateRequest)
    requires Registry.Good(reg) && Update(reg, id, req).Ok?
    ensures var r := Update(reg, id, req).value;
      && Registry.Good(r)
      && Registry.GetProject(r.projects, id) == Some(Apply(Registry.GetProject(reg.projects, id).value, req))
  {
    var p := Registry.GetProject(reg.projects, id).value;
    var k := ProjectIndex(reg, id);
    Registry.UpdateProjectAt(reg, k, Apply(p, req));
    Registry.GetProjectAfterUpdate(reg, k, Apply(p, req));
  }

  /** Overwriting a row keeps names unique when the new name is the row's
      own or not taken. */
  lemma SetKeepsNamesUnique(ps: seq<Project>, k: nat, q: Project)
    requires UniqueNames(ps) && k < |ps|
    requires q.name == ps[k].name || !Registry.ExistsByName(ps, q.name)
    ensures UniqueNames(ps[k := q])
  {
    var qs := ps[k := q];
    forall i, j | 0 <= i < |qs| && 0 <= j < |qs| && qs[i].name == qs[j].name ensures i == j {
      if i != k && j != k {
        assert qs[i] == ps[i] && qs[j] == ps[j];
      }
    }
  }

  /** An update that goes through keeps project names unique. */
  lemma UpdateKeepsNamesUnique(reg: Registry.Registry, id: int, req: UpdateRequest)
    requires Registry.Good(reg) && UniqueNames(reg.projects) && Update(reg, id, req).Ok?
    ensures UniqueNames(Update(reg, id, req).value.projects)
  {
    var p := Registry.GetProject(reg.projects, id).value;
    var k := ProjectIndex(reg, id);
    var q := Apply(p, req);
    Registry.UpdateProjectAt(reg, k, q);
    assert Update(reg, id, req).value.projects == reg.projects[k := q];
    SetKeepsNamesUnique(reg.projects, k, q);
  }

  /** The empty request leaves the tables as they were. */
  lemma EmptyUpdateChangesNothing(reg: Registry.Registry, id: int)
    requires Registry.Good(reg) && Registry.GetProject(reg.projects, id).Some?
    ensures Update(reg, id, NoChanges) == Ok(reg)
  {
    var p := Registry.GetProject(reg.projects, id).value;
    var k := ProjectIndex(reg, id);
    Registry.UpdateProjectAt(reg, k, Apply(p, NoChanges));
    assert Apply(p, NoChanges) == p;
    assert reg.projects[k := p] == reg.projects;
  }

  /** Delete: an unknown id is ProjectNotFound; otherwise the project row
      goes, and its environments and keys stay. */
  function Delete(reg: Registry.Registry, id: int): (r: Result<Registry.Registry, Error>)
    ensures r.Err? <==> Registry.GetProject(reg.projects, id).None?
    ensures r.Err? ==> r.error == ProjectNotFound
    ensures r.Ok? ==> Registry.GetProject(r.value.projects, id).None?
    ensures r.Ok? ==> forall p :: p in r.value.projects <==> p in reg.projects && p.id != id
    ensures r.Ok? ==> r.value.keys == reg.keys && r.value.environments == reg.environments
  {
    match Registry.GetProject(reg.projects, id)
    case None => Err(ProjectNotFound)
    case Some(_) => Ok(reg.(projects := Registry.DeleteProject(reg.projects, id)))
  }

  /** Deleting a project keeps the tables well formed. */
  lemma DeleteKeepsGood(reg: Registry.Registry, id: int)
    requires Registry.Good(reg) && Registry.GetProject(reg.projects, id).Some?
    ensures Registry.Good(Delete(reg, id).value)
  {
    Registry.DeleteProjectKeepsGood(reg, id);
  }
}
