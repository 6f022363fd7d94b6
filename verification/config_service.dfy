/** The configuration service (internal/service/config.go): creating a
    configuration with its first version, appending versions, and the reads
    that return a configuration with its latest version. */
module ConfigService {
  import opened Wrappers
  import opened Records
  import opened Errors
  import opened Db
  import JsonValue
  import Parser
  import ContentHash
  import ConfigRepo
  import VersionRepo

  const DefaultNamespace := "application"
  const DefaultEnvironment := "default"
  const InitialMessage := "初始版本"
  const UpdateMessage := "更新配置"

  predicate SupportedFileType(t: string) {
    t == "json" || t == "yaml" || t == "protobuf"
  }

  /** generateHash: the 16-character commit hash of the content. */
  function GenerateHash(sha: ContentHash.Sha256, content: string): (h: string)
    ensures |h| == 16
    ensures ContentHash.IsLowerHex(h)
    ensures h == ContentHash.FullHash(sha, content)[..16]
  {
    ContentHash.CommitHash(sha, content)
  }

  function OrDefault(s: string, d: string): (r: string)
    ensures r == (if s == "" then d else s)
  {
    if s == "" then d else s
  }

  datatype UploadRequest = UploadRequest(
    name: string, namespace: string, environment: string,
    fileType: string, content: string, message: string)

  /** The content Upload stores: JSON must be valid, YAML is re-encoded as
      JSON, protobuf is stored as given. */
  function StoredContent(lib: JsonValue.Library, ylib: Parser.YamlLibrary, fileType: string, content: string)
    : (r: Result<string, Error>)
    requires SupportedFileType(fileType)
    ensures fileType == "json" ==> (r.Ok? <==> lib.valid(content)) && (r.Ok? ==> r.value == content)
    ensures fileType == "json" && r.Err? ==> r.error == InvalidJSON
    ensures fileType == "yaml" ==> r == Parser.YamlToJsonText(ylib, lib, content)
    ensures fileType == "protobuf" ==> r == Ok(content)
  {
    if fileType == "json" then (if lib.valid(content) then Ok(content) else Err(InvalidJSON))
    else if fileType == "yaml" then Parser.YamlToJsonText(ylib, lib, content)
    else Ok(content)
  }

  /** Upload: an unsupported file type is refused first, then content that
      does not convert with its conversion error, then a (project,
      namespace, environment, name) already taken; it succeeds exactly when
      none of these applies, and a refusal changes nothing. */
  function Upload(db: Db, sha: ContentHash.Sha256, lib: JsonValue.Library, ylib: Parser.YamlLibrary,
                  projectId: int, req: UploadRequest, author: string): (o: Outcome<Config>)
    ensures o.result.Err? ==> o.db == db
    ensures !SupportedFileType(req.fileType) ==> o.result == Err(InvalidFileType)
    ensures SupportedFileType(req.fileType) && StoredContent(lib, ylib, req.fileType, req.content).Err? ==>
      o.result == Err(StoredContent(lib, ylib, req.fileType, req.content).error)
    ensures o.result.Ok? <==>
      && SupportedFileType(req.fileType)
      && StoredContent(lib, ylib, req.fileType, req.content).Ok?
      && ConfigRepo.GetByProjectNamespaceEnv(db.configs, projectId, OrDefault(req.namespace, DefaultNamespace),
                                             OrDefault(req.environment, DefaultEnvironment), req.name).None?
  {
    if !SupportedFileType(req.fileType) then Outcome(db, Err(InvalidFileType))
    else match StoredContent(lib, ylib, req.fileType, req.content)
      case Err(e) => Outcome(db, Err(e))
      case Ok(content) =>
        var namespace := OrDefault(req.namespace, DefaultNamespace);
        var environment := OrDefault(req.environment, DefaultEnvironment);
        if ConfigRepo.GetByProjectNamespaceEnv(db.configs, projectId, namespace, environment, req.name).Some? then
          Outcome(db, Err(ConfigNameExists))
        else
          var (db1, config) := InsertConfig(db, Config(0, projectId, req.name, namespace, environment,
                                                      req.fileType, "", "code", 1));
          var message := OrDefault(req.message, InitialMessage);
          var (db2, _) := InsertVersion(db1, ConfigVersion(0, config.id, 1, content,
                                                          GenerateHash(sha, content), message, author));
          Outcome(db2, Ok(config))
  }

  /** A successful upload adds exactly one configuration, with CurrentVersion
      1 and defaulted namespace and environment, and exactly one version row,
      numbered 1, holding the stored content and its hash. */
  lemma UploadCreates(db: Db, sha: ContentHash.Sha256, lib: JsonValue.Library, ylib: Parser.YamlLibrary,
                      projectId: int, req: UploadRequest, author: string)
    requires SupportedFileType(req.fileType)
    requires Upload(db, sha, lib, ylib, projectId, req, author).result.Ok?
    ensures var o := Upload(db, sha, lib, ylib, projectId, req, author);
      var c := o.result.value;
      var content := StoredContent(lib, ylib, req.fileType, req.content).value;
      && c.id == db.nextConfigId && c.projectId == projectId && c.name == req.name
      && c.namespace == OrDefault(req.namespace, DefaultNamespace)
      && c.environment == OrDefault(req.environment, DefaultEnvironment)
      && c.currentVersion == 1 && c.defaultEditMode == "code"
      && o.db.configs == db.configs + [c]
      && o.db.releases == db.releases
      && o.db.versions == db.versions + [ConfigVersion(db.nextVersionId, c.id, 1, content,
           GenerateHash(sha, content), OrDefault(req.message, InitialMessage), author)]
  {
  }

  /** Upload refuses a (project, namespace, environment, name) that exists. */
  lemma UploadRejectsDuplicate(db: Db, sha: ContentHash.Sha256, lib: JsonValue.Library, ylib: Parser.YamlLibrary,
                               projectId: int, req: UploadRequest, author: string, i: nat)
    requires SupportedFileType(req.fileType)
    requires StoredContent(lib, ylib, req.fileType, req.content).Ok?
    requires i < |db.configs|
    requires db.configs[i].projectId == projectId && db.configs[i].name == req.name
    requires db.configs[i].namespace == OrDefault(req.namespace, DefaultNamespace)
    requires db.configs[i].environment == OrDefault(req.environment, DefaultEnvironment)
    ensures Upload(db, sha, lib, ylib, projectId, req, author) == Outcome(db, Err(ConfigNameExists))
  {
  }

  /** Update: appends version CurrentVersion+1 and advances the pointer. JSON
      validity is checked only for "json" configurations. */
  function Update(db: Db, sha: ContentHash.Sha256, lib: JsonValue.Library,
                  id: int, content: string, message: string, author: string): (o: Outcome<ConfigVersion>)
    ensures o.result.Err? ==> o.db == db
    ensures ConfigRepo.GetByID(db.configs, id).None? ==> o.result == Err(ConfigNotFound)
    ensures o.result.Err? && o.result.error != ConfigNotFound ==> o.result.error == InvalidJSON
    ensures o.result.Ok? ==> var c := ConfigRepo.GetByID(db.configs, id).value;
      && o.result.value == ConfigVersion(db.nextVersionId, id, c.currentVersion + 1, content,
                                        GenerateHash(sha, content), OrDefault(message, UpdateMessage), author)
      && o.db.versions == db.versions + [o.result.value]
      && o.db.configs == ConfigRepo.Update(db.configs, c.(currentVersion := c.currentVersion + 1))
      && o.db.releases == db.releases
      && o.db.nextConfigId == db.nextConfigId && o.db.nextVersionId == db.nextVersionId + 1
      && o.db.nextReleaseId == db.nextReleaseId
  {
    match ConfigRepo.GetByID(db.configs, id)
    case None => Outcome(db, Err(ConfigNotFound))
    case Some(config) =>
      if config.fileType == "json" && !lib.valid(content) then Outcome(db, Err(InvalidJSON))
      else
        var newVersion := config.currentVersion + 1;
        var (db1, row) := InsertVersion(db, ConfigVersion(0, id, newVersion, content, GenerateHash(sha, content),
                                                          OrDefault(message, UpdateMessage), author));
        Outcome(db1.(configs := ConfigRepo.Update(db1.configs, config.(currentVersion := newVersion))), Ok(row))
  }

  /** GetByID: the configuration and its latest version, a missing version
      being no error. */
  function GetByID(db: Db, id: int): (r: Result<(Config, Option<ConfigVersion>), Error>)
    ensures r.Err? <==> ConfigRepo.GetByID(db.configs, id).None?
    ensures r.Err? ==> r.error == ConfigNotFound
    ensures r.Ok? ==> r.value.1 == VersionRepo.GetLatest(db.versions, r.value.0.id)
  {
    match ConfigRepo.GetByID(db.configs, id)
    case None => Err(ConfigNotFound)
    case Some(c) => Ok((c, VersionRepo.GetLatest(db.versions, id)))
  }

  /** GetByAccessKey: the same defaults as Upload, the exact tuple, and the
      latest version (none without error when there are no versions). */
  function GetByAccessKey(db: Db, projectId: int, name: string, namespace: string, env: string)
    : (r: Result<(Config, Option<ConfigVersion>), Error>)
    ensures r.Err? ==> r.error == ConfigNotFound
    ensures r.Err? <==> ConfigRepo.GetByProjectNamespaceEnv(db.configs, projectId,
      OrDefault(namespace, DefaultNamespace), OrDefault(env, DefaultEnvironment), name).None?
    ensures r.Ok? ==> (r.value.0.projectId == projectId && r.value.0.name == name
      && r.value.0.namespace == OrDefault(namespace, DefaultNamespace)
      && r.value.0.environment == OrDefault(env, DefaultEnvironment))
    ensures r.Ok? ==> r.value.1 == VersionRepo.GetLatest(db.versions, r.value.0.id)
  {
    var ns := OrDefault(namespace, DefaultNamespace);
    var e := OrDefault(env, DefaultEnvironment);
    match ConfigRepo.GetByProjectNamespaceEnv(db.configs, projectId, ns, e, name)
    case None => Err(ConfigNotFound)
    case Some(c) => Ok((c, VersionRepo.GetLatest(db.versions, c.id)))
  }

  /** The read path serves the version CurrentVersion names. */
  lemma GetByAccessKeyServesCurrent(db: Db, projectId: int, name: string, namespace: string, env: string)
    requires Good(db)
    requires GetByAccessKey(db, projectId, name, namespace, env).Ok?
    ensures var (c, v) := GetByAccessKey(db, projectId, name, namespace, env).value;
      v.Some? && v.value.version == c.currentVersion && v.value.configId == c.id
  {
    var (c, v) := GetByAccessKey(db, projectId, name, namespace, env).value;
    LatestIsCurrent(db, c);
  }

  // ---------------------------------------------------------------------------
  // The store invariant is kept
  // ---------------------------------------------------------------------------

  lemma UploadKeepsGood(db: Db, sha: ContentHash.Sha256, lib: JsonValue.Library, ylib: Parser.YamlLibrary,
                        projectId: int, req: UploadRequest, author: string)
    requires Good(db)
    ensures Good(Upload(db, sha, lib, ylib, projectId, req, author).db)
  {
    var o := Upload(db, sha, lib, ylib, projectId, req, author);
    if o.result.Ok? {
      var content := StoredContent(lib, ylib, req.fileType, req.content).value;
      var c := Config(0, projectId, req.name, OrDefault(req.namespace, DefaultNamespace),
                      OrDefault(req.environment, DefaultEnvironment), req.fileType, "", "code", 1);
      var v := ConfigVersion(0, db.nextConfigId, 1, content, GenerateHash(sha, content),
                             OrDefault(req.message, InitialMessage), author);
      assert o.db == InsertVersion(InsertConfig(db, c).0, v).0;
      CreateKeepsGood(db, c, v);
    }
  }

  lemma UpdateKeepsGood(db: Db, sha: ContentHash.Sha256, lib: JsonValue.Library,
                        id: int, content: string, message: string, author: string)
    requires Good(db)
    ensures Good(Update(db, sha, lib, id, content, message, author).db)
  {
    var o := Update(db, sha, lib, id, content, message, author);
    if o.result.Ok? {
      AdvanceKeepsGood(db, ConfigRepo.GetByID(db.configs, id).value, o.result.value, o.db);
    }
  }
}
