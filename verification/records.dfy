/** The persisted records (internal/model). Timestamps are integers (seconds)
    supplied by the caller; text columns holding JSON (permissions, IP
    whitelists, settings) stay text and are decoded where the source decodes
    them. */
module Records {
  import opened Wrappers

  /** A configuration file (model.Config). */
  datatype Config = Config(
    id: int,
    projectId: int,
    name: string,
    namespace: string,
    environment: string,
    fileType: string,
    schemaJson: string,
    defaultEditMode: string,
    currentVersion: int)

  /** One stored version of a configuration (model.ConfigVersion). */
  datatype ConfigVersion = ConfigVersion(
    id: int,
    configId: int,
    version: int,
    content: string,
    commitHash: string,
    commitMessage: string,
    author: string)

  /** Release.Status: "pending", "released", "rollback", "gray", and the two
      states a gray release ends in, "promoted" and "cancelled". */
  datatype Status = Pending | Released | RolledBack | Gray | Promoted | Cancelled

  /** Release.ReleaseType: "full" or "gray". */
  datatype ReleaseType = Full | GrayType

  /** model.GrayRules. `kind` is the rule type: "percentage", "client_id" or
      "ip_range"; any other text selects no cohort. */
  datatype GrayRules = GrayRules(
    kind: string,
    percentage: int,
    clientIds: seq<string>,
    ipRanges: seq<string>)

  /** model.Release. The GrayRules column is JSON text written by
      json.Marshal of a GrayRules value; it is modelled by the rules it decodes
      to, `None` standing for text that does not decode (the empty text a full
      release carries). */
  datatype Release = Release(
    id: int,
    projectId: int,
    configId: int,
    version: int,
    environment: string,
    status: Status,
    releaseType: ReleaseType,
    grayRules: Option<GrayRules>,
    grayPercentage: int,
    releasedBy: string,
    releasedAt: int)

  /** model.Permissions: six independent flags. */
  datatype Permissions = Permissions(
    read: bool, write: bool, delete: bool, release: bool, admin: bool, decrypt: bool)

  const NoPermissions := Permissions(false, false, false, false, false, false)
  const AllPermissions := Permissions(true, true, true, true, true, true)

  /** model.DefaultPermissions: read and write. */
  const DefaultPermissions := Permissions(true, true, false, false, false, false)

  /** The flag a permission name selects, `None` for an unknown name. */
  function Flag(p: Permissions, name: string): (r: Option<bool>)
    ensures r.Some? <==> name in PermissionNames
  {
    if name == "read" then Some(p.read)
    else if name == "write" then Some(p.write)
    else if name == "delete" then Some(p.delete)
    else if name == "release" then Some(p.release)
    else if name == "admin" then Some(p.admin)
    else if name == "decrypt" then Some(p.decrypt)
    else None
  }

  const PermissionNames: set<string> := {"read", "write", "delete", "release", "admin", "decrypt"}

  /** Every flag of AllPermissions is set and none of NoPermissions is. */
  lemma FlagConstants(name: string)
    requires name in PermissionNames
    ensures Flag(AllPermissions, name) == Some(true)
    ensures Flag(NoPermissions, name) == Some(false)
  {
  }

  /** An API key (model.ProjectKey). `permissions` and `ipWhitelist` are the
      stored JSON texts; `expiresAt` is absent for keys that never expire. */
  datatype ProjectKey = ProjectKey(
    id: int,
    projectId: int,
    name: string,
    accessKey: string,
    secretKeyHash: string,
    permissions: string,
    ipWhitelist: string,
    expiresAt: Option<int>,
    isActive: bool)

  /** model.Project */
  datatype Project = Project(
    id: int,
    name: string,
    description: string,
    accessMode: string,
    publicPermissions: string,
    settings: string,
    gitRepoUrl: string,
    gitBranch: string,
    webhookSecret: string,
    createdBy: int)

  /** model.ProjectEnvironment */
  datatype ProjectEnvironment = ProjectEnvironment(
    id: int,
    projectId: int,
    name: string,
    description: string,
    sortOrder: int)

  /** One entry of a project's environment list (service.Environment), kept
      in the project's settings text under "environments". */
  datatype Environment = Environment(name: string, description: string, order: int, isDefault: bool)
}
