/** The error values the services return (the `Err…` variables of
    internal/service, plus the ad-hoc errors.New messages), and the HTTP status
    the API layer answers each with (internal/api/helper.go). */
module Errors {

  datatype Error =
    // project.go
    | ProjectNotFound | ProjectNameExists | ProjectNameRequired
    // config.go
    | ConfigNotFound | ConfigNameExists | InvalidJSON | InvalidYAML | InvalidFileType
    // version.go, key.go, release.go
    | VersionNotFound | KeyNotFound | ReleaseNotFound
    // schema.go
    | InvalidSchema | SchemaNotFound | SchemaMissingType
    | ConfigContentUnavailable | ConfigContentNotJson
    // encryption.go
    | EncryptionFailed | DecryptionFailed
    // access.go
    | AccessDenied | IPNotAllowed | KeyExpired | KeyInactive | PermissionDenied
    // parser.go
    | ParseJSON | ParseYAML
    // gray_release.go
    | GrayReleaseNotFound | GrayReleaseActive
    | OnlyGrayPromotable | OnlyGrayCancellable | OnlyGrayUpdatable
    // release.go: "no version to roll back to"
    | NothingToRollBack
    // environment.go
    | EnvironmentNotFound | EnvironmentExists | InvalidBaseConfig | InvalidEnvConfig
    // gorm's "record not found" and encoding/json's decoding errors, passed
    // through unchanged
    | RecordNotFound | UnmarshalFailed
    // a run-time panic in the handler, answered by the recovery middleware
    | Panic

  /** handleServiceError: the HTTP status for a service error. */
  function HttpStatus(e: Error): (code: int)
    ensures code in {400, 404, 409, 500}
    ensures code == 404 <==> e in NotFoundErrors
    ensures code == 409 <==> e in {ProjectNameExists, ConfigNameExists}
    ensures code == 400 <==> e in BadRequestErrors
  {
    match e
    case ProjectNotFound => 404
    case ProjectNameExists => 409
    case ProjectNameRequired => 400
    case ConfigNotFound => 404
    case ConfigNameExists => 409
    case InvalidJSON => 400
    case InvalidYAML => 400
    case InvalidFileType => 400
    case VersionNotFound => 404
    case KeyNotFound => 404
    case ReleaseNotFound => 404
    case InvalidSchema => 400
    case SchemaNotFound => 404
    case _ => 500
  }

  const NotFoundErrors: set<Error> :=
    {ProjectNotFound, ConfigNotFound, VersionNotFound, KeyNotFound, ReleaseNotFound, SchemaNotFound}

  const BadRequestErrors: set<Error> :=
    {ProjectNameRequired, InvalidJSON, InvalidYAML, InvalidFileType, InvalidSchema}

  /** Everything else is an internal error, including the gray-release errors
      and the "only gray releases can…" state errors. */
  lemma GrayErrorsAreInternal()
    ensures HttpStatus(GrayReleaseActive) == 500
    ensures HttpStatus(GrayReleaseNotFound) == 500
    ensures HttpStatus(OnlyGrayPromotable) == 500
    ensures HttpStatus(OnlyGrayCancellable) == 500
    ensures HttpStatus(OnlyGrayUpdatable) == 500
    ensures HttpStatus(EnvironmentExists) == 500
  {
  }
}
