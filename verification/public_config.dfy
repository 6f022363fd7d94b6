/** The public configuration API that SDK clients call with an access key:
    reading, updating and creating a configuration, and long-polling for a
    change. The handlers read the caller from the auth context the
    middleware installed; the reply is the status and the body's meaningful
    members, and a handler that succeeds also writes one audit row. */
module PublicConfig {
  import opened Wrappers
  import opened Records
  import opened Errors
  import opened Text
  import GoInt
  import Db
  import ConfigService
  import JsonValue
  import Parser
  import ContentHash
  import Encryption
  import Notification
  import Middleware
  import Audit

  const StatusOk := 200
  const StatusCreated := 201
  const StatusNotModified := 304
  const StatusBadRequest := 400
  const StatusUnauthorized := 401
  const StatusNotFound := 404

  // ---------------------------------------------------------------------------
  // The auth context getters
  // ---------------------------------------------------------------------------

  /** getUserID, getAccessKeyID and getProjectID read the installed auth
      context, and are 0 when there is none. */
  function UserId(ctx: Option<Middleware.AuthContext>): (id: int)
    ensures ctx.None? ==> id == 0
    ensures ctx.Some? ==> id == ctx.value.userId
  {
    if ctx.Some? then ctx.value.userId else 0
  }

  function AccessKeyId(ctx: Option<Middleware.AuthContext>): (id: int)
    ensures ctx.None? ==> id == 0
    ensures ctx.Some? ==> id == ctx.value.accessKeyId
  {
    if ctx.Some? then ctx.value.accessKeyId else 0
  }

  function ProjectId(ctx: Option<Middleware.AuthContext>): (id: int)
    ensures ctx.None? ==> id == 0
    ensures ctx.Some? ==> id == ctx.value.projectId
  {
    if ctx.Some? then ctx.value.projectId else 0
  }

  /** The public API serves access-key callers only: the context a token
      or an anonymous caller gets names no project. */
  lemma OnlyKeyCallersHaveProject(parse: Middleware.TokenParser, header: string)
    requires Middleware.JwtAuth(parse, header).Continue?
    ensures ProjectId(Some(Middleware.JwtAuth(parse, header).ctx)) == 0
    ensures ProjectId(Some(Middleware.AuthContext(0, "", 0, 0, Middleware.ReadOnly))) == 0
  {
  }

  // ---------------------------------------------------------------------------
  // Decrypting on read
  // ---------------------------------------------------------------------------

  /** decryptMap's rewrite: a string longer than the prefix and starting
      with it is decrypted without the prefix; a failed decryption leaves it
      as it was. */
  function PublicDecryptRewrite(svc: Encryption.Service): Encryption.Rewrite {
    (path: string, key: string, s: string) =>
      if |s| > 4 && s[..4] == Encryption.EncryptedPrefix then
        match Encryption.Decrypt(svc, s[4..])
        case Ok(p) => p
        case Err(_) => s
      else s
  }

  /** decryptSensitiveFields: content that is not a JSON object comes back
      unchanged. */
  function DecryptSensitiveFields(lib: JsonValue.Library, svc: Encryption.Service, content: string): (r: string)
    ensures JsonValue.ParseObject(lib, content).None? ==> r == content
  {
    match Encryption.Transform(lib, content, PublicDecryptRewrite(svc))
    case Ok(text) => text
    case Err(_) => content
  }

  /** The handler's rewrite and the encryption service's agree on every
      string but the bare prefix "ENC:", which the handler leaves alone and
      the service tries to decrypt as empty ciphertext. */
  lemma PublicDecryptAgrees(svc: Encryption.Service, path: string, key: string, s: string)
    ensures s != Encryption.EncryptedPrefix ==>
      PublicDecryptRewrite(svc)(path, key, s) == Encryption.DecryptRewrite(svc)(path, key, s)
    ensures PublicDecryptRewrite(svc)(path, key, Encryption.EncryptedPrefix) == Encryption.EncryptedPrefix
  {
    if s != Encryption.EncryptedPrefix && Encryption.IsEncrypted(s) {
      assert s[..4] == Encryption.EncryptedPrefix;
    }
  }

  /** When empty ciphertext does not decrypt (as with base64 and AES-GCM,
      where it is shorter than a nonce), decrypting on read is the service's
      DecryptFields, except that content which is not a JSON object is
      returned as it is instead of failing. */
  lemma DecryptSensitiveFieldsIsDecryptFields(lib: JsonValue.Library, svc: Encryption.Service, content: string)
    requires Encryption.Decrypt(svc, "").Err?
    ensures DecryptSensitiveFields(lib, svc, content)
      == match Encryption.DecryptFields(lib, svc, content) case Ok(text) => text case Err(_) => content
  {
    var f := PublicDecryptRewrite(svc);
    var g := Encryption.DecryptRewrite(svc);
    forall path, key, s ensures f(path, key, s) == g(path, key, s) {
      PublicDecryptAgrees(svc, path, key, s);
      if s == Encryption.EncryptedPrefix {
        assert s[|Encryption.EncryptedPrefix|..] == "";
      }
    }
    assert Encryption.SameRewrite(f, g);
    match JsonValue.ParseObject(lib, content)
    case None =>
    case Some(None) =>
    case Some(Some(fs)) =>
      Encryption.SameWalk(fs, "", f, g);
  }

  // ---------------------------------------------------------------------------
  // GET /api/v1/config
  // ---------------------------------------------------------------------------

  /** The client's address and user agent, as the audit row records them. */
  datatype Peer = Peer(clientIP: string, userAgent: string)

  /** The resource type an access row names. */
  const ResourceConfig := "config"

  /** logAccess: the audit row a handler writes once it has succeeded. It
      names the project, the access key when the caller used one, the
      action and the configuration, and records the client; no user and no
      request body. */
  function AccessEntry(ctx: Option<Middleware.AuthContext>, projectId: int, configId: int, action: string,
                       peer: Peer): (e: Audit.Entry)
    ensures e.projectId == projectId && e.action == action
    ensures e.resourceType == ResourceConfig && e.resourceId == configId
    ensures e.accessKeyId.Some? <==> AccessKeyId(ctx) > 0
    ensures e.accessKeyId.Some? ==> e.accessKeyId.value == AccessKeyId(ctx)
    ensures e.userId.None? && e.requestBody == []
    ensures e.ipAddress == peer.clientIP && e.userAgent == peer.userAgent
  {
    var keyId := if ctx.Some? && ctx.value.accessKeyId > 0 then Some(ctx.value.accessKeyId) else None;
    Audit.Entry(action, ResourceConfig, configId, peer.clientIP, peer.userAgent, [], None, keyId, projectId)
  }

  /** The body of a successful read: the configuration's identity, its
      current version number and, when it has a version, that content. */
  datatype ConfigReply = ConfigReply(
    name: string, namespace: string, environment: string, version: int, content: Option<string>)

  /** A served read carries the "read" row written to the audit log. */
  datatype GetReply = GetRefused(status: int) | GetServed(body: ConfigReply, log: Audit.Entry)

  /** Get: 401 without a project, 400 without a name, 404 when the
      configuration is not found; the content is decrypted only for a caller
      holding the decrypt permission. A served read is logged as "read" of
      the configuration found. */
  function Get(db: Db.Db, lib: JsonValue.Library, svc: Encryption.Service, ctx: Option<Middleware.AuthContext>,
               peer: Peer, name: string, namespace: string, env: string): (r: GetReply)
    ensures ProjectId(ctx) == 0 ==> r == GetRefused(StatusUnauthorized)
    ensures ProjectId(ctx) != 0 && name == "" ==> r == GetRefused(StatusBadRequest)
    ensures ProjectId(ctx) != 0 && name != "" ==>
      (r == GetRefused(StatusNotFound) <==> ConfigService.GetByAccessKey(db, ProjectId(ctx), name, namespace, env).Err?)
    ensures r.GetRefused? ==> r.status in {StatusUnauthorized, StatusBadRequest, StatusNotFound}
    ensures r.GetServed? ==>
      r.log == AccessEntry(ctx, ProjectId(ctx), ConfigService.GetByAccessKey(db, ProjectId(ctx), name, namespace, env).value.0.id,
                           "read", peer)
  {
    var projectId := ProjectId(ctx);
    if projectId == 0 then GetRefused(StatusUnauthorized)
    else if name == "" then GetRefused(StatusBadRequest)
    else match ConfigService.GetByAccessKey(db, projectId, name, namespace, env)
      case Err(_) => GetRefused(StatusNotFound)
      case Ok((config, version)) =>
        var content :=
          if version.None? then None
          else if ctx.Some? && ctx.value.permissions.decrypt then Some(DecryptSensitiveFields(lib, svc, version.value.content))
          else Some(version.value.content);
        GetServed(ConfigReply(config.name, config.namespace, config.environment, config.currentVersion, content),
                  AccessEntry(ctx, projectId, config.id, "read", peer))
  }

  /** In a consistent store a read serves the current version's content,
      decrypted exactly when the caller holds the decrypt permission. */
  lemma GetServesCurrent(db: Db.Db, lib: JsonValue.Library, svc: Encryption.Service,
                         ctx: Option<Middleware.AuthContext>, peer: Peer, name: string, namespace: string, env: string)
    requires Db.Good(db) && ProjectId(ctx) != 0 && name != ""
    requires ConfigService.GetByAccessKey(db, ProjectId(ctx), name, namespace, env).Ok?
    ensures var (config, version) := ConfigService.GetByAccessKey(db, ProjectId(ctx), name, namespace, env).value;
      var r := Get(db, lib, svc, ctx, peer, name, namespace, env);
      && r.GetServed? && version.Some?
      && r.body.version == version.value.version
      && r.body.content == Some(if ctx.value.permissions.decrypt then DecryptSensitiveFields(lib, svc, version.value.content)
                                else version.value.content)
  {
    ConfigService.GetByAccessKeyServesCurrent(db, ProjectId(ctx), name, namespace, env);
  }

  // ---------------------------------------------------------------------------
  // PUT /api/v1/config
  // ---------------------------------------------------------------------------

  /** The commit message of an update made through the API ("updated
      through the API") when the request gives none. */
  const ApiUpdateMessage := "通过 API 更新"

  /** The author recorded for a write: "key:<id>" for an access key,
      otherwise "api". */
  function AuthorOf(ctx: Option<Middleware.AuthContext>): (a: string)
    ensures AccessKeyId(ctx) <= 0 ==> a == "api"
    ensures AccessKeyId(ctx) > 0 ==> HasPrefix(a, "key:") && AllDigits(a[4..])
  {
    if ctx.Some? && ctx.value.accessKeyId > 0 then "key:" + NatToDecimal(ctx.value.accessKeyId) else "api"
  }

  /** The author names the key: its digits read back as the key's id. */
  lemma AuthorNamesKey(ctx: Option<Middleware.AuthContext>)
    requires 0 < AccessKeyId(ctx) <= GoInt.MaxInt64
    ensures GoInt.ParseInt(AuthorOf(ctx)[4..]) == GoInt.Value(AccessKeyId(ctx))
  {
    var id := AccessKeyId(ctx);
    assert AuthorOf(ctx)[4..] == NatToDecimal(id);
    GoInt.ParseDecimal(id);
  }

  datatype UpdateReply = UpdateRefused(status: int) | Updated(version: int)

  /** The store and the notification hub after a handler, its reply and
      the audit row it wrote, if any. */
  datatype UpdateOutcome = UpdateOutcome(db: Db.Db, hub: Notification.Hub, reply: UpdateReply, log: Option<Audit.Entry>)

  /** The change every watcher hears of after an update. */
  function UpdateChange(config: Config, version: int): (c: Notification.Change)
    ensures c.configId == config.id && c.version == version && c.changeType == "update"
  {
    Notification.Change(config.id, config.name, config.namespace, config.environment, version, "update")
  }

  /** Update: 401 without a project; 400 when the name or the content is
      missing; 404 when the configuration is not found; a failing update
      answers with its error's status. A stored version is logged as
      "update" and announced to every watcher. Nothing changes unless the
      reply is Updated. */
  function Update(db: Db.Db, sha: ContentHash.Sha256, lib: JsonValue.Library, hub: Notification.Hub,
                  ctx: Option<Middleware.AuthContext>, peer: Peer, name: string, namespace: string, env: string,
                  content: string, message: string): (o: UpdateOutcome)
    ensures ProjectId(ctx) == 0 ==> o.reply == UpdateRefused(StatusUnauthorized)
    ensures ProjectId(ctx) != 0 && (name == "" || content == "") ==> o.reply == UpdateRefused(StatusBadRequest)
    ensures o.reply.UpdateRefused? ==> o.db == db && o.hub == hub
    ensures o.log.Some? <==> o.reply.Updated?
    ensures o.reply.Updated? ==> ConfigService.GetByAccessKey(db, ProjectId(ctx), name, namespace, env).Ok?
    ensures o.log.Some? ==>
      o.log.value == AccessEntry(ctx, ProjectId(ctx), ConfigService.GetByAccessKey(db, ProjectId(ctx), name, namespace, env).value.0.id,
                                 "update", peer)
    ensures ProjectId(ctx) != 0 && name != "" && content != "" ==>
      (o.reply == UpdateRefused(StatusNotFound) <==> ConfigService.GetByAccessKey(db, ProjectId(ctx), name, namespace, env).Err?)
  {
    var projectId := ProjectId(ctx);
    if projectId == 0 then UpdateOutcome(db, hub, UpdateRefused(StatusUnauthorized), None)
    else if name == "" || content == "" then UpdateOutcome(db, hub, UpdateRefused(StatusBadRequest), None)
    else match ConfigService.GetByAccessKey(db, projectId, name, namespace, env)
      case Err(_) => UpdateOutcome(db, hub, UpdateRefused(StatusNotFound), None)
      case Ok((config, _)) =>
        var msg := ConfigService.OrDefault(message, ApiUpdateMessage);
        var o := ConfigService.Update(db, sha, lib, config.id, content, msg, AuthorOf(ctx));
        match o.result
        case Err(e) => UpdateOutcome(db, hub, UpdateRefused(HttpStatus(e)), None)
        case Ok(v) =>
          UpdateOutcome(o.db, Notification.NotifyChange(hub, UpdateChange(config, v.version)), Updated(v.version),
                        Some(AccessEntry(ctx, projectId, config.id, "update", peer)))
  }

  /** A successful update is the configuration service's update of the
      configuration found under the name, followed by one notification. */
  lemma UpdateIsServiceUpdate(db: Db.Db, sha: ContentHash.Sha256, lib: JsonValue.Library, hub: Notification.Hub,
                              ctx: Option<Middleware.AuthContext>, peer: Peer, name: string, namespace: string, env: string,
                              content: string, message: string)
    requires Update(db, sha, lib, hub, ctx, peer, name, namespace, env, content, message).reply.Updated?
    ensures var o := Update(db, sha, lib, hub, ctx, peer, name, namespace, env, content, message);
      var config := ConfigService.GetByAccessKey(db, ProjectId(ctx), name, namespace, env).value.0;
      var stored := ConfigService.Update(db, sha, lib, config.id, content,
                                         ConfigService.OrDefault(message, ApiUpdateMessage), AuthorOf(ctx));
      && stored.result.Ok?
      && o.db == stored.db
      && o.reply.version == stored.result.value.version
      && o.hub == Notification.NotifyChange(hub, UpdateChange(config, o.reply.version))
  {
  }

  /** A successful update stores the next version with the caller as
      author, and every watcher with room in its queue hears of exactly that
      version of exactly that configuration. */
  lemma UpdateNotifiesWatchers(db: Db.Db, sha: ContentHash.Sha256, lib: JsonValue.Library, hub: Notification.Hub,
                               ctx: Option<Middleware.AuthContext>, peer: Peer, name: string, namespace: string, env: string,
                               content: string, message: string, client: string)
    requires Db.ConfigKeys(db)
    requires Update(db, sha, lib, hub, ctx, peer, name, namespace, env, content, message).reply.Updated?
    requires client in hub && |hub[client]| < Notification.Capacity
    ensures var o := Update(db, sha, lib, hub, ctx, peer, name, namespace, env, content, message);
      var config := ConfigService.GetByAccessKey(db, ProjectId(ctx), name, namespace, env).value.0;
      && o.reply.version == config.currentVersion + 1
      && o.hub[client] == hub[client] + [UpdateChange(config, o.reply.version)]
      && o.db.versions[|db.versions|].version == o.reply.version
      && o.db.versions[|db.versions|].author == AuthorOf(ctx)
      && o.db.versions[|db.versions|].commitMessage == (if message == "" then ApiUpdateMessage else message)
  {
    var config := ConfigService.GetByAccessKey(db, ProjectId(ctx), name, namespace, env).value.0;
    var k := Db.ConfigIndex(db.configs, config);
    Db.GetByIDFinds(db, k);
    UpdateIsServiceUpdate(db, sha, lib, hub, ctx, peer, name, namespace, env, content, message);
  }

  // ---------------------------------------------------------------------------
  // POST /api/v1/config
  // ---------------------------------------------------------------------------

  datatype CreateReply = CreateRefused(status: int) | ConfigCreated(config: Config)

  /** The outcome of a create: the store after it, the reply and the audit
      row written, if any. */
  datatype CreateOutcome = CreateOutcome(db: Db.Db, reply: CreateReply, log: Option<Audit.Entry>)

  /** The create handler after the request was bound: a created
      configuration is logged as "create". */
  function CreateBound(db: Db.Db, sha: ContentHash.Sha256, lib: JsonValue.Library, ylib: Parser.YamlLibrary,
                       ctx: Option<Middleware.AuthContext>, peer: Peer, req: ConfigService.UploadRequest): (o: CreateOutcome)
    requires ProjectId(ctx) != 0
    ensures o.reply.CreateRefused? ==> o.db == db
    ensures o.reply.ConfigCreated? ==> o.reply.config.projectId == ProjectId(ctx) && o.reply.config.name == req.name
    ensures o.reply.ConfigCreated? ==> req.fileType == "" || o.reply.config.fileType == req.fileType
    ensures o.reply.ConfigCreated? ==> req.fileType != "" || o.reply.config.fileType == "json"
    ensures o.log.Some? <==> o.reply.ConfigCreated?
    ensures o.log.Some? ==> o.log.value == AccessEntry(ctx, ProjectId(ctx), o.reply.config.id, "create", peer)
  {
    var req' := req.(fileType := if req.fileType == "" then "json" else req.fileType);
    var o := ConfigService.Upload(db, sha, lib, ylib, ProjectId(ctx), req', AuthorOf(ctx));
    match o.result
    case Err(e) => CreateOutcome(db, CreateRefused(HttpStatus(e)), None)
    case Ok(config) =>
      ConfigService.UploadCreates(db, sha, lib, ylib, ProjectId(ctx), req', AuthorOf(ctx));
      CreateOutcome(o.db, ConfigCreated(config), Some(AccessEntry(ctx, ProjectId(ctx), config.id, "create", peer)))
  }

  /** Create: 401 without a project; binding rejects a request without a
      name, a file type or a content (all three are required members of the
      request) with 400, so the file-type default below the binding is never
      reached; otherwise the bound request is uploaded. */
  function Create(db: Db.Db, sha: ContentHash.Sha256, lib: JsonValue.Library, ylib: Parser.YamlLibrary,
                  ctx: Option<Middleware.AuthContext>, peer: Peer, req: ConfigService.UploadRequest): (o: CreateOutcome)
    ensures ProjectId(ctx) == 0 ==> o.reply == CreateRefused(StatusUnauthorized)
    ensures ProjectId(ctx) != 0 && (req.name == "" || req.fileType == "" || req.content == "") ==>
      o.reply == CreateRefused(StatusBadRequest)
    ensures o.reply.CreateRefused? ==> o.db == db && o.log.None?
    ensures o.reply.ConfigCreated? ==>
      o.reply.config.projectId == ProjectId(ctx) && o.reply.config.name == req.name && o.reply.config.fileType == req.fileType
  {
    if ProjectId(ctx) == 0 then CreateOutcome(db, CreateRefused(StatusUnauthorized), None)
    else if req.name == "" || req.fileType == "" || req.content == "" then CreateOutcome(db, CreateRefused(StatusBadRequest), None)
    else CreateBound(db, sha, lib, ylib, ctx, peer, req)
  }

  /** Create with the file type optional, as the handler's default means:
      only a missing name or content is a bad request, and a missing file
      type is JSON. */
  function CreateDefaultingType(db: Db.Db, sha: ContentHash.Sha256, lib: JsonValue.Library, ylib: Parser.YamlLibrary,
                                ctx: Option<Middleware.AuthContext>, peer: Peer, req: ConfigService.UploadRequest): (o: CreateOutcome)
    ensures ProjectId(ctx) == 0 ==> o.reply == CreateRefused(StatusUnauthorized)
    ensures ProjectId(ctx) != 0 && (req.name == "" || req.content == "") ==> o.reply == CreateRefused(StatusBadRequest)
  {
    if ProjectId(ctx) == 0 then CreateOutcome(db, CreateRefused(StatusUnauthorized), None)
    else if req.name == "" || req.content == "" then CreateOutcome(db, CreateRefused(StatusBadRequest), None)
    else CreateBound(db, sha, lib, ylib, ctx, peer, req)
  }

  /** As written, a request that leaves out the file type is refused with
      400 whatever else it holds, although the handler has a default for it. */
  lemma FileTypeDefaultUnreachable(db: Db.Db, sha: ContentHash.Sha256, lib: JsonValue.Library,
                                   ylib: Parser.YamlLibrary, ctx: Option<Middleware.AuthContext>, peer: Peer,
                                   req: ConfigService.UploadRequest)
    requires ProjectId(ctx) != 0 && req.fileType == ""
    ensures Create(db, sha, lib, ylib, ctx, peer, req).reply == CreateRefused(StatusBadRequest)
  {
  }

  /** With the default in effect, leaving out the file type is the same as
      asking for JSON; wherever the file type is given, the corrected handler
      agrees with the handler as written. */
  lemma FileTypeDefaultsToJson(db: Db.Db, sha: ContentHash.Sha256, lib: JsonValue.Library,
                               ylib: Parser.YamlLibrary, ctx: Option<Middleware.AuthContext>, peer: Peer,
                               req: ConfigService.UploadRequest)
    ensures req.fileType == "" ==>
      CreateDefaultingType(db, sha, lib, ylib, ctx, peer, req) == CreateDefaultingType(db, sha, lib, ylib, ctx, peer, req.(fileType := "json"))
    ensures req.fileType != "" ==> CreateDefaultingType(db, sha, lib, ylib, ctx, peer, req) == Create(db, sha, lib, ylib, ctx, peer, req)
  {
  }

  // ---------------------------------------------------------------------------
  // GET /api/v1/config/watch (long polling)
  // ---------------------------------------------------------------------------

  const DefaultTimeout := 30
  const MinTimeout := 1
  const MaxTimeout := 60

  /** The `version` parameter: 0 when absent, else what strconv.Atoi
      yields (0 for text that is not a number). */
  function RequestedVersion(text: string): (v: int)
    ensures text == "" ==> v == 0
    ensures text != "" ==> v == GoInt.AtoiValue(text)
  {
    if text == "" then 0 else GoInt.AtoiValue(text)
  }

  /** The `timeout` parameter in seconds: 30 when absent, else Atoi's value
      clamped to [1, 60]. */
  function Timeout(text: string): (secs: int)
    ensures MinTimeout <= secs <= MaxTimeout
    ensures text == "" ==> secs == DefaultTimeout
    ensures text != "" && MinTimeout <= GoInt.AtoiValue(text) <= MaxTimeout ==> secs == GoInt.AtoiValue(text)
    ensures text != "" && GoInt.AtoiValue(text) > MaxTimeout ==> secs == MaxTimeout
    ensures text != "" && GoInt.AtoiValue(text) < MinTimeout ==> secs == MinTimeout
  {
    if text == "" then DefaultTimeout
    else
      var t := GoInt.AtoiValue(text);
      if t > MaxTimeout then MaxTimeout else if t < MinTimeout then MinTimeout else t
  }

  /** A timeout written in decimal is taken as given within the bounds,
      clamped beyond them, and text that is not a number waits the least. */
  lemma TimeoutReadsDecimal(n: nat, text: string)
    requires n <= GoInt.MaxInt64
    requires text != "" && GoInt.ParseInt(text).SyntaxError?
    ensures MinTimeout <= n <= MaxTimeout ==> Timeout(NatToDecimal(n)) == n
    ensures n > MaxTimeout ==> Timeout(NatToDecimal(n)) == MaxTimeout
    ensures n == 0 ==> Timeout(NatToDecimal(n)) == MinTimeout
    ensures Timeout(text) == MinTimeout
  {
    GoInt.ParseDecimal(n);
  }

  datatype WatchReply =
    | WatchRefused(status: int)
    | WatchChanged(name: string, namespace: string, environment: string, version: int, content: string)
    | NotModified
    | NoReply

  /** The first half of Watch: either an answer straight away, or the
      configuration and the timeout to wait with. */
  datatype WatchStart = Answer(reply: WatchReply) | Wait(config: Config, timeout: int)

  /** Watch up to the subscription: 401 without a project, 400 without a
      name, 404 for an unknown configuration, and an immediate reply when
      the stored version is newer than the one the client has. */
  function WatchBegin(db: Db.Db, ctx: Option<Middleware.AuthContext>, name: string, namespace: string, env: string,
                      versionText: string, timeoutText: string): (r: WatchStart)
    ensures ProjectId(ctx) == 0 ==> r == Answer(WatchRefused(StatusUnauthorized))
    ensures ProjectId(ctx) != 0 && name == "" ==> r == Answer(WatchRefused(StatusBadRequest))
    ensures ProjectId(ctx) != 0 && name != "" ==>
      (r == Answer(WatchRefused(StatusNotFound)) <==> ConfigService.GetByAccessKey(db, ProjectId(ctx), name, namespace, env).Err?)
    ensures r.Answer? && r.reply.WatchChanged? ==> r.reply.version > RequestedVersion(versionText)
    ensures r.Answer? ==> r.reply.WatchRefused? || r.reply.WatchChanged?
    ensures r.Wait? ==> r.timeout == Timeout(timeoutText)
    ensures r.Wait? ==> (ConfigService.GetByAccessKey(db, ProjectId(ctx), name, namespace, env).Ok?
      && r.config == ConfigService.GetByAccessKey(db, ProjectId(ctx), name, namespace, env).value.0)
  {
    var projectId := ProjectId(ctx);
    if projectId == 0 then Answer(WatchRefused(StatusUnauthorized))
    else if name == "" then Answer(WatchRefused(StatusBadRequest))
    else match ConfigService.GetByAccessKey(db, projectId, name, namespace, env)
      case Err(_) => Answer(WatchRefused(StatusNotFound))
      case Ok((config, version)) =>
        if version.Some? && version.value.version > RequestedVersion(versionText) then
          Answer(WatchChanged(config.name, config.namespace, config.environment, version.value.version, version.value.content))
        else Wait(config, Timeout(timeoutText))
  }

  /** A found configuration is answered at once exactly when its latest
      version is newer than the client's; in a consistent store that is its
      current version. */
  lemma ImmediateReplyIffNewer(db: Db.Db, ctx: Option<Middleware.AuthContext>, name: string, namespace: string,
                               env: string, versionText: string, timeoutText: string)
    requires Db.Good(db) && ProjectId(ctx) != 0 && name != ""
    requires ConfigService.GetByAccessKey(db, ProjectId(ctx), name, namespace, env).Ok?
    ensures var config := ConfigService.GetByAccessKey(db, ProjectId(ctx), name, namespace, env).value.0;
      var r := WatchBegin(db, ctx, name, namespace, env, versionText, timeoutText);
      && (r.Answer? <==> config.currentVersion > RequestedVersion(versionText))
      && (r.Answer? ==> r.reply.WatchChanged? && r.reply.version == config.currentVersion)
  {
    ConfigService.GetByAccessKeyServesCurrent(db, ProjectId(ctx), name, namespace, env);
  }

  /** What ends the wait: a value read from the subscription channel (none
      when the channel was closed), the timer, or the client going away. */
  datatype Event = Delivered(change: Option<Notification.Change>) | TimedOut | ClientGone

  /** Watch after the wait. Only a change of the watched configuration
      leads to a re-read; a change of any other configuration ends the watch
      with 304 like the timer does. */
  function WatchEnd(db: Db.Db, ctx: Option<Middleware.AuthContext>, name: string, namespace: string, env: string,
                    config: Config, event: Event): (r: WatchReply)
    ensures event == TimedOut ==> r == NotModified
    ensures event == ClientGone ==> r == NoReply
    ensures event.Delivered? && (event.change.None? || event.change.value.configId != config.id) ==> r == NotModified
    ensures r.WatchChanged? ==> event.Delivered? && event.change.Some? && event.change.value.configId == config.id
    ensures r.WatchChanged? ==> (r.name == config.name && r.namespace == config.namespace
      && r.environment == config.environment)
  {
    match event
    case TimedOut => NotModified
    case ClientGone => NoReply
    case Delivered(change) =>
      if change.Some? && change.value.configId == config.id then
        match ConfigService.GetByAccessKey(db, ProjectId(ctx), name, namespace, env)
        case Ok((_, Some(v))) => WatchChanged(config.name, config.namespace, config.environment, v.version, v.content)
        case _ => NotModified
      else NotModified
  }

  /** Hearing of its own configuration, a watcher replies with what the
      store now holds: the current version of the configuration found under
      the same name, with its content. */
  lemma WakeServesCurrent(db: Db.Db, ctx: Option<Middleware.AuthContext>, name: string, namespace: string, env: string,
                          config: Config, change: Notification.Change)
    requires Db.Good(db) && change.configId == config.id
    requires ConfigService.GetByAccessKey(db, ProjectId(ctx), name, namespace, env).Ok?
    ensures var (now, v) := ConfigService.GetByAccessKey(db, ProjectId(ctx), name, namespace, env).value;
      var r := WatchEnd(db, ctx, name, namespace, env, config, Delivered(Some(change)));
      && v.Some?
      && r == WatchChanged(config.name, config.namespace, config.environment, now.currentVersion, v.value.content)
  {
    ConfigService.GetByAccessKeyServesCurrent(db, ProjectId(ctx), name, namespace, env);
  }
}
