# config-hub in Dafny

config-hub is a configuration centre. Projects own named configuration
documents (JSON or YAML) per namespace and environment. Every change appends
an immutable, content-hashed version. Releases point an environment at a
version. A gray (canary) release serves a new version to a cohort of clients
chosen by percentage, client id or IP range until it is promoted or
cancelled. SDK clients read configurations with an access key and long-poll
for changes through an in-process notification hub.

This project models the engine behind that: the services, the repositories
they query and the middleware in front of them, as pure functions over
immutable tables, with their contracts proved. It covers:

- versions and hashing: the SHA-256 commit hash, FNV-1a, the version store,
  rollback and the line diff;
- releases: full releases, release history, rollback, and the gray-release
  state machine with its three cohort rules;
- JSON algorithms: the structural diff, environment comparison and sync,
  the deep merge of environment overlays, schema inference and validation,
  the JSON/YAML parser, and field encryption, decryption and masking;
- access decisions: API keys (validity, expiry, IPv4 whitelist,
  permissions), request signatures, the authentication and audit
  middleware, and the key and project services;
- the notification hub and the long-poll Watch handler of the public API,
  with the public read, update and create handlers;
- the start-up settings derived from environment variables: the database
  DSN, the Redis address and the listening port.

Every store operation is one atomic step over `Db` (configurations,
versions, releases) or `Registry` (projects, environments, keys). Tables are
sequences in primary-key order.

Library code is passed in as function-valued parameters:
- encoding/json and yaml.v3;
- SHA-256, HMAC-SHA256, AES-GCM, base64 and bcrypt;
- the UUID generator, the JWT parser, the clock and the entropy source.

The contracts state only what the services build on top of these. Where a
service relies on a library round trip (`parse(marshal(v)) == v`, `open` after
`seal`), the lemmas that need it take it as a predicate in their requires:
`Lawful` for the JSON library, and one per family of stored JSON records
(`PermissionsLawful`, `StringsLawful`, `EnvironmentsLawful`).

JSON numbers are reals, and encoding/json holds only float64 values. The
library's `number` predicate says which numbers it holds. Its laws are
stated for the documents it can hold (`Holds`), and every document it
decodes is one of them. `JsonCode.Code` is a library that meets `Lawful`
and `LawfulIndent`, so the lemmas that assume them can be used.

Where the code does something other than it evidently means (see
"## Findings"), the operation follows the code as written, and the
evidently intended definition stands beside it with a lemma relating the
two.

The IP whitelist check of the authentication middleware
(internal/middleware/auth.go:251-286) is the same code as the access
service's matchIP. Both are modelled by `IPv4.MatchIP` through
`Access.CheckIPWhitelist`.

## Model

| member | source | states |
|---|---|---|
| ContentHash.FullHash | internal/service/hash.go:25-28 | the full hash is 64 lower-case hex characters that decode back to the SHA-256 digest of the content's UTF-8 bytes |
| ContentHash.CommitHash | internal/service/hash.go:19-22 | the commit hash is 16 lower-case hex characters, the first 16 of the full hash, and decodes to the digest's first 8 bytes |
| ContentHash.UnhexHex | internal/service/hash.go:21 | hex encoding is invertible, so a hash pins down the digest bytes it encodes |
| ContentHash.HexInjective | internal/service/hash.go:21 | distinct digests give distinct hex strings |
| ContentHash.PrefixOfHex | internal/service/hash.go:21 | cutting the hex text at 2n characters is the hex of the digest's first n bytes |
| ContentHash.TimestampedHash | internal/service/hash.go:32-36 | the timestamped hash is the commit hash of the content followed by the clock's text |
| ContentHash.VerifyOwnHash | internal/service/hash.go:39-42 | a content always verifies against its own commit hash |
| ContentHash.VerifyRejectsMalformed | internal/service/hash.go:39-42 | a hash that is not 16 lower-case hex characters never verifies |
| ContentHash.CompareIsDigestEquality | internal/service/hash.go:45-49 | two contents compare equal exactly when their SHA-256 digests agree |
| ContentHash.CompareReflexive | internal/service/hash.go:45-49 | every content compares equal to itself |
| ContentHash.CompareSymmetric | internal/service/hash.go:45-49 | comparison does not depend on argument order |
| ContentHash.CompareImpliesSameCommit | internal/service/hash.go:45-49 | contents that compare equal have the same commit hash |
| Fnv.HashFromAppend | internal/service/gray_release.go:134-136 | FNV-1a over a concatenation continues from the state after the first part |
| Fnv.TestVectors | internal/service/gray_release.go:134-136 | the 32-bit FNV-1a hash of "", "a" and "foobar" is 0x811c9dc5, 0xe40c292c and 0xbf9cf968 |
| Records.Flag | internal/service/access.go:142-155 | the six permission names, and only they, select a flag |
| Records.FlagConstants | internal/middleware/auth.go:70-81 | the all-true record grants every named permission and the all-false record grants none |
| Codecs.FromMap | internal/service/access.go:165-171 | decoding a name-to-flag map into the permission record sets each flag from the greatest key that equals its name once case is folded, and leaves it false when no key matches |
| Codecs.FromMapGreatestDecides | internal/service/access.go:165-171 | the greatest matching key decides a flag, whatever other matching keys hold |
| Codecs.FromMapUnmatched | internal/service/access.go:165-171 | a flag that no key matches stays false |
| Codecs.FromMapFoldsCase | internal/service/access.go:165-171 | a key spelled in any case, the only one matching a flag, sets that flag to its value |
| Codecs.NamesDistinct | internal/model/key.go:28-35 | no two permission names match each other under case folding |
| Codecs.FromMapExactNames | internal/service/key.go:50-58 | a map keyed by exact permission names reads back flag by flag |
| Codecs.TaggedCodecs | internal/service/access.go:165-171 | the permission round-trip laws can all hold together with case-folding map decoding |
| Errors.HttpStatus | internal/api/helper.go:43-117 | the status is 404 exactly for the not-found errors, 409 exactly for the two name clashes, 400 exactly for the bad-request errors, and 500 otherwise |
| Errors.GrayErrorsAreInternal | internal/api/helper.go:110-116 | the gray-release errors and the other unlisted errors are reported as 500 |
| GoInt.ParseInt | internal/middleware/signature.go:57-60 | strconv.ParseInt in base 10: a syntax error exactly when the digits after an optional sign are empty or contain a non-digit, and a value always within int64 |
| GoInt.ParseDecimal | internal/middleware/signature.go:57-60 | the decimal text of an int64 value parses back to that value |
| GoInt.AtoiValue | internal/api/public_config.go:237-251 | the value strconv.Atoi leaves behind is within int64 and is 0 on a syntax error |
| GoInt.Truncate | internal/service/schema.go:294 | truncation toward zero: the whole number within one of x on x's side of zero |
| GoInt.Int64OfFloat | internal/middleware/auth.go:70 | `int64(x)` is always an int64: the truncation when it fits, MinInt64 otherwise as on amd64 |
| GoInt.Int64OfWhole | internal/middleware/auth.go:70 | a whole number in int64 range plus a fraction towards zero converts back to that number |
| GoInt.RuneString | internal/service/version.go:105 | the string of a rune conversion has one character, the code point when the 32-bit value is a Unicode scalar and U+FFFD otherwise |
| Text.SplitJoin | internal/middleware/audit.go:90 | strings.Split is undone by strings.Join with the same separator, and no part contains the separator |
| Text.TrimLeftSpace | internal/service/parser.go:100 | the left trim drops exactly the leading white space |
| Text.TrimRightSpace | internal/service/parser.go:100 | the right trim drops exactly the trailing white space |
| Text.TrimLeftChar | internal/middleware/audit.go:90 | the left trim drops exactly the leading copies of the character |
| Text.TrimRightChar | internal/middleware/audit.go:90 | the right trim drops exactly the trailing copies of the character |
| Text.DecimalRoundTrip | internal/middleware/audit.go:134-144 | the decimal text of a number reads back as that number |
| Sorting.Sort | internal/service/env_diff.go:130 | sorting yields an ordered permutation of its input |
| Sorting.SortKeepsElementsAll | internal/service/env_diff.go:130 | a sorted list holds exactly the elements of its input |
| Sorting.SortStable | internal/repository/release.go:52-59 | the sort is stable: rows that tie under the ordering, such as releases with one released_at, keep their table order |
| Sorting.InsertStable | internal/repository/release.go:52-59 | inserting into a sorted list places the new element after every element it ties with |
| ReleaseRepo.GetByID | internal/repository/release.go:27-34 | the lookup finds a stored release with that id, and fails exactly when no release has it |
| ReleaseRepo.GetByConfigAndEnv | internal/repository/release.go:37-47 | the result is a "released" or "gray" release of the configuration and environment with the latest release time, and there is none exactly when no such release exists; First orders by the primary key after released_at, so among equally new releases it is the first in the table |
| ReleaseRepo.List | internal/repository/release.go:50-54 | the configuration's releases, each stored one exactly as often as stored, newest first |
| ReleaseRepo.ListByProject | internal/repository/release.go:57-61 | exactly the project's releases, each as often as stored, newest first |
| ReleaseRepo.Update | internal/repository/release.go:64-66 | the row with the record's id is overwritten wholesale and every other row is kept |
| ReleaseRepo.GetActiveGrayRelease | internal/repository/release.go:69-78 | a "gray" release of the configuration and environment, and none exactly when there is no such release |
| ReleaseRepo.NewestServed | internal/repository/release.go:37-47 | a current release newer than every stored one is what the lookup serves once it is stored |
| VersionRepo.GetByConfigAndVersion | internal/repository/version.go:27-34 | the row with both the configuration id and the number, failing exactly when there is none |
| VersionRepo.GetLatest | internal/repository/version.go:44-51 | a row of the configuration with the highest number, none exactly when the configuration has no rows |
| VersionRepo.List | internal/repository/version.go:37-41 | all of the configuration's rows, with multiplicity, in descending number order |
| VersionRepo.GetVersionsSince | internal/repository/version.go:54-61 | exactly the configuration's rows numbered above the bound, each as often as stored, ascending |
| VersionRepo.DeleteByConfigID | internal/repository/version.go:64-66 | exactly the rows of other configurations remain |
| VersionRepo.Update | internal/repository/version.go:69-71 | the row with the id is overwritten in place and the others are kept |
| ConfigRepo.GetByID | internal/repository/config.go:27-34 | a stored row with the id, none exactly when no row has it |
| ConfigRepo.GetByProjectNamespaceEnv | internal/repository/config.go:47-56 | a row matching the project, namespace, environment and name exactly, none exactly when no row matches all four |
| ConfigRepo.GetByNameAndEnv | internal/repository/config.go:92-108 | a row matching project and name, the namespace when one is given, and the environment (an empty one matching only rows with an empty environment), none exactly when no row matches |
| ConfigRepo.AnyNamespaceWhenEmpty | internal/repository/config.go:95-97 | without a namespace, a row in any namespace is found |
| ConfigRepo.List | internal/repository/config.go:59-63 | exactly the project's configurations, each as often as stored, ordered by name |
| ConfigRepo.ListByNamespace | internal/repository/config.go:66-73 | exactly the project's configurations in the namespace, each as often as stored, ordered by environment and then by name |
| ConfigRepo.Update | internal/repository/config.go:76-78 | the row with the id is overwritten and the others are kept |
| ConfigRepo.IncrementVersion | internal/repository/config.go:86-89 | the row with the id gets CurrentVersion + 1 and every other row is kept |
| Db.InsertConfig | internal/repository/config.go:22-24 | a created configuration row gets the next id and is appended; nothing else in the tables changes |
| Db.InsertVersion | internal/repository/version.go:22-24 | a created version row gets the next id and is appended; nothing else changes |
| Db.InsertRelease | internal/repository/release.go:22-24 | a created release row gets the next id and the creation time and is appended; nothing else changes |
| Db.EmptyIsGood | internal/model/config.go:8-37 | the empty store satisfies the store invariant (increasing keys, every configuration's history numbered 1..CurrentVersion without repeats, at most one gray release per configuration and environment) |
| Db.LatestIsCurrent | internal/service/config.go:220 | under the invariant, the latest stored version of a configuration is the one CurrentVersion names, and that row can be looked up by number |
| Db.GetByIDFinds | internal/repository/config.go:27-34 | with unique ids, looking a stored row up by its id finds that row |
| Db.AdvanceKeepsGood | internal/service/config.go:168-191 | appending version CurrentVersion + 1 of a stored configuration and advancing its pointer keeps the invariant |
| Db.SaveKeepsGood | internal/repository/config.go:76-78 | saving a configuration row under its own id with its CurrentVersion unchanged keeps the invariant |
| Db.CreateKeepsGood | internal/service/config.go:93-125 | a new configuration with CurrentVersion 1 and its version 1 keep the invariant |
| Db.ReleaseUpdateKeepsGood | internal/repository/release.go:64-66 | overwriting a release keeps the invariant unless it makes a second gray release of the same configuration and environment |
| Db.InsertReleaseKeepsGood | internal/repository/release.go:22-24 | adding a release keeps the invariant unless it is a second gray release of its configuration and environment |
| ConfigService.GenerateHash | internal/service/config.go:229-232 | the hash is 16 lower-case hex characters, the prefix of the content's full SHA-256 hex |
| ConfigService.StoredContent | internal/service/config.go:57-74 | JSON content is accepted exactly when valid and stored as given, otherwise ErrInvalidJSON; YAML content is re-encoded as JSON; protobuf content is stored unvalidated |
| ConfigService.Upload | internal/service/config.go:51-128 | an unsupported file type is ErrInvalidFileType, content that does not convert fails with its conversion error, and otherwise the upload succeeds exactly when no configuration holds the (project, namespace, environment, name); every failure leaves the store unchanged |
| ConfigService.UploadCreates | internal/service/config.go:76-125 | a successful upload creates one configuration with the defaulted namespace and environment and CurrentVersion 1, and one version row numbered 1 with the stored content, its hash and the defaulted message |
| ConfigService.UploadRejectsDuplicate | internal/service/config.go:86-90 | an existing (project, namespace, environment, name) after defaulting gives ErrConfigNameExists |
| ConfigService.Update | internal/service/config.go:156-195 | a missing configuration is ErrConfigNotFound and invalid JSON in a "json" configuration is ErrInvalidJSON, each leaving the store unchanged; otherwise the new row is version CurrentVersion + 1 with the content's hash and the defaulted message, and the configuration's pointer advances to it |
| ConfigService.GetByID | internal/service/config.go:131-143 | a missing configuration is ErrConfigNotFound; otherwise the configuration with its latest version, if any |
| ConfigService.GetByAccessKey | internal/service/config.go:207-226 | namespace and environment default as in Upload; the configuration matching the exact tuple, with its latest version or none without an error |
| ConfigService.GetByAccessKeyServesCurrent | internal/service/config.go:215-225 | under the invariant the read path serves the version CurrentVersion names |
| ConfigService.UploadKeepsGood | internal/service/config.go:51-128 | Upload keeps the store invariant |
| ConfigService.UpdateKeepsGood | internal/service/config.go:156-195 | Update keeps the store invariant |
| VersionService.List | internal/service/version.go:33-35 | exactly the configuration's versions, each as often as stored, in descending number order |
| VersionService.GetByVersion | internal/service/version.go:38-44 | the stored row with that configuration and number, or ErrVersionNotFound exactly when there is none |
| VersionService.LineGroup | internal/service/version.go:152-173 | the entries for one line: at most two, all at that line number, none of them an empty "add" or "remove" |
| VersionService.GroupRecoversLines | internal/service/version.go:152-173 | the old line is what the "unchanged" and "remove" entries of a line group say, and the new line what its "unchanged" and "add" entries say |
| VersionService.DiffFrom | internal/service/version.go:142-174 | the entries from line index i on carry line numbers in i+1..max, at most two per line |
| VersionService.DiffContent | internal/service/version.go:129-177 | the diff of two contents has at most two entries per line of the longer side, numbered 1..max |
| VersionService.DiffFromAtLine | internal/service/version.go:142-174 | the entries carrying a given line number are exactly that line's group |
| VersionService.DiffRecoversBothSides | internal/service/version.go:142-174 | for every line number up to the longer side, its entries give back the old line and the new line (an absent line being "") |
| VersionService.DiffSelf | internal/service/version.go:152-157 | the diff of a content with itself is one "unchanged" entry per line, numbered from 1, carrying that line |
| VersionService.Diff | internal/service/version.go:62-80 | ErrVersionNotFound exactly when either version is missing; otherwise the result echoes both numbers and carries the line diff of the two contents |
| VersionService.RollbackMessage | internal/service/version.go:105 | the rollback message is the fixed prefix followed by the decimal digits of the target number |
| VersionService.RollbackMessagesAgreeBelowTen | internal/service/version.go:105 | for targets 0 to 9 the message agrees with the one-rune form the code builds |
| VersionService.Rollback | internal/service/version.go:83-120 | a missing target is ErrVersionNotFound and a missing configuration ErrConfigNotFound, each leaving the store unchanged; otherwise the new row is version CurrentVersion + 1 carrying the target's content and its hash, with the rollback message spelled as the code builds it (one rune past '0'), and the pointer advances to it |
| VersionService.RollbackKeepsGood | internal/service/version.go:83-120 | Rollback keeps the store invariant |
| VersionService.RollbackRestoresContent | internal/service/version.go:97-117 | after a rollback the latest version is the new row and its content is the target version's content |
| VersionService.LatestUnique | internal/repository/version.go:44-51 | under the invariant, the latest row of a configuration is the one numbered CurrentVersion |
| ReleaseService.Create | internal/service/release.go:32-64 | a missing configuration is exactly ErrConfigNotFound; after version 0 defaults to CurrentVersion, a missing version is ErrVersionNotFound; failures change nothing; a success appends a "released"/"full" release of the configuration's project for exactly that environment and version |
| ReleaseService.CreateNeedsStoredVersion | internal/service/release.go:39-47 | for a stored configuration, Create succeeds exactly when the (defaulted) version is stored |
| ReleaseService.CreateKeepsGood | internal/service/release.go:32-64 | Create keeps the store invariant |
| ReleaseService.List | internal/service/release.go:67-69 | exactly the configuration's releases, each as often as stored, newest first |
| ReleaseService.GetByEnv | internal/service/release.go:122-124 | the newest current ("released" or "gray") release of the configuration in the environment, the first in the table among equally new ones, and none exactly when there is no such release |
| ReleaseService.PreviousVersion | internal/service/release.go:85-101 | a version to roll back to is non-zero and is that of the first release, newest first, that is another release of the same environment with status "released" |
| ReleaseService.Rollback | internal/service/release.go:72-119 | an unknown release is ErrReleaseNotFound and changes nothing; otherwise the release is marked "rollback" and that change stays even when no predecessor exists; a success appends a "released"/"full" release of the previous version in the same environment |
| ReleaseService.RollbackMarksRelease | internal/service/release.go:78-82 | after Rollback, whatever its outcome, the target release row has status "rollback" and is otherwise unchanged |
| ReleaseService.RollbackKeepsGood | internal/service/release.go:72-119 | Rollback keeps the store invariant |
| ReleaseService.RollbackServesPrevious | internal/service/release.go:103-118 | after a successful rollback the environment's current release is the new release |
| ReleaseService.ListEnvironments | internal/service/release.go:127-130 | always exactly dev, test, staging, prod |
| GrayRelease.Bucket | internal/service/gray_release.go:134-137 | a client's bucket, its FNV-1a hash modulo 100, is in 0..99 |
| GrayRelease.MatchPercentage | internal/service/gray_release.go:126-138 | a percentage of 0 or less never matches and 100 or more always matches |
| GrayRelease.PercentageMonotone | internal/service/gray_release.go:126-138 | a client in the cohort at some percentage stays in it at every higher percentage |
| GrayRelease.PercentageIsBucket | internal/service/gray_release.go:126-138 | for percentages 0..100 a client matches exactly when its bucket is below the percentage |
| GrayRelease.BucketOfA | internal/service/gray_release.go:134-137 | the client "a" falls in bucket 20: it is outside a 20 % cohort and inside a 21 % one |
| GrayRelease.MatchClientID | internal/service/gray_release.go:141-155 | a client matches exactly when some entry equals its id or is a "*"-terminated pattern whose stem prefixes the id |
| GrayRelease.StarAdmitsAll | internal/service/gray_release.go:147-151 | a lone "*" entry admits every client |
| GrayRelease.PatternAdmitsExtensions | internal/service/gray_release.go:147-151 | "stem*" admits every id starting with the stem |
| GrayRelease.MatchIPRange | internal/service/gray_release.go:158-175 | a client matches exactly when its address parses and some entry admits it: CIDR containment for entries with "/", string equality otherwise |
| GrayRelease.AnyRangeMatches | internal/service/gray_release.go:164-174 | the loop succeeds exactly when some entry admits the address |
| GrayRelease.UnparsedClientExcluded | internal/service/gray_release.go:159-162 | an unparseable client address is never in the cohort |
| GrayRelease.HostBlockMatches | internal/service/gray_release.go:165-169 | a /32 block of the client's own address admits it |
| GrayRelease.InCohort | internal/service/gray_release.go:109-117 | the rule type selects the matcher; an unknown type matches nobody |
| GrayRelease.ShouldUse | internal/service/gray_release.go:98-123 | the gray release is returned exactly when it is reported, and that is exactly when an active gray release exists, its rules decode and the client is in its cohort |
| GrayRelease.Create | internal/service/gray_release.go:48-95 | a missing configuration is ErrConfigNotFound, an active gray release is ErrGrayReleaseActive, a missing (defaulted) version ErrVersionNotFound, each changing nothing; a success appends a "gray"/"gray" release carrying the rules and the requested percentage |
| GrayRelease.CreateKeepsGood | internal/service/gray_release.go:48-95 | Create keeps the store invariant, including at most one gray release per configuration and environment |
| GrayRelease.CreatedIsActive | internal/service/gray_release.go:78-94 | the created release is the active gray release of its configuration and environment, and with a percentage of 100 or more every client is served it |
| GrayRelease.GrayById | internal/service/gray_release.go:179-186 | an unknown release is ErrGrayReleaseNotFound; a release not in "gray" status is the operation's own state error; otherwise the stored gray release |
| GrayRelease.Promote | internal/service/gray_release.go:178-210 | fails exactly when the release is unknown or not gray, changing nothing; otherwise marks it "promoted" and appends a "released"/"full" release of the same configuration, version and environment |
| GrayRelease.Cancel | internal/service/gray_release.go:213-225 | fails exactly when the release is unknown or not gray, changing nothing; otherwise only its status becomes "cancelled" |
| GrayRelease.WithPercentage | internal/service/gray_release.go:238-241 | the rewritten rules carry the new percentage and otherwise the decoded rules |
| GrayRelease.UpdatePercentage | internal/service/gray_release.go:228-247 | fails exactly when the release is unknown or not gray, changing nothing; otherwise only the rules' percentage and GrayPercentage change |
| GrayRelease.PromoteKeepsGood | internal/service/gray_release.go:178-210 | Promote keeps the store invariant |
| GrayRelease.CancelKeepsGood | internal/service/gray_release.go:213-225 | Cancel keeps the store invariant |
| GrayRelease.UpdatePercentageKeepsGood | internal/service/gray_release.go:228-247 | UpdatePercentage keeps the store invariant |
| GrayRelease.CancelEndsGray | internal/service/gray_release.go:223-224 | after a cancel no gray release of that configuration and environment remains |
| GrayRelease.PromoteEndsGray | internal/service/gray_release.go:189-191 | after a promote no gray release of that configuration and environment remains |
| GrayRelease.PromoteServesGrayVersion | internal/service/gray_release.go:194-209 | after a promote the environment's current release is the new full release, at the gray release's version |
| GrayRelease.GetGrayReleaseVersion | internal/service/gray_release.go:250-252 | the version row the release names, none exactly when it is not stored |
| IPv4.ParseAddr | internal/service/access.go:107-110 | an address parses exactly when it is four dot-separated decimal octets (0..255, no leading zeros) |
| IPv4.FormatThenParse | internal/service/access.go:107-110 | every address printed in dotted form parses back to itself |
| IPv4.ParseThenFormat | internal/service/access.go:107-110 | every parseable text is the dotted form of the address it parses to |
| IPv4.BitsRoundTrip | internal/service/access.go:111 | the fixed-width bit string of a number reads back as that number |
| IPv4.OctetBitsInjective | internal/service/access.go:111 | distinct octets have distinct 8-bit strings |
| IPv4.IndexOf | internal/service/access.go:103 | the first occurrence of a character, none exactly when it does not occur |
| IPv4.ParseCIDR | internal/service/access.go:103-106 | a parsed network has a prefix length of at most 32 and came from text containing "/" |
| IPv4.ContainsOwnAddress | internal/service/access.go:111 | a network contains the address it was written with |
| IPv4.HostRoute | internal/service/access.go:111 | a /32 network contains exactly its own address |
| IPv4.DefaultRoute | internal/service/access.go:111 | a /0 network contains every address |
| IPv4.MatchIPCases | internal/service/access.go:95-130 | an address matches a pattern exactly when it equals it, or the pattern has "/" and the network contains the address, or the pattern has "*" and no "/" and every non-"*" dot segment agrees with the same number of segments |
| Access.IsKeyValid | internal/service/access.go:203-211 | a key is valid exactly when it is active and not past its expiry |
| Access.Whitelist | internal/service/access.go:71-83 | no restriction exactly for "", "[]", text that does not decode as a list of strings, or an empty list; otherwise the decoded non-empty list |
| Access.AnyMatch | internal/service/access.go:85-89 | the loop admits the address exactly when some pattern matches it |
| Access.CheckIPWhitelist | internal/service/access.go:71-92 | ErrIPNotAllowed exactly when a restricting list exists and no pattern in it matches |
| Access.DecodePermissions | internal/service/access.go:165-171 | an empty permissions text is all flags false without error; anything else is what Unmarshal leaves, with its error flag |
| Access.CheckPermission | internal/service/access.go:133-162 | granted exactly when Unmarshal reports no error and the named flag, one of the six, is set; otherwise ErrPermissionDenied |
| Access.GetPermissions | internal/service/access.go:165-171 | the flags Unmarshal leaves behind, its error ignored, so a partly decoded text keeps the flags decoded before the error; all false for empty text |
| Access.HasPermission | internal/service/access.go:174-192 | an unknown name is false; otherwise the named flag of the decoded permissions |
| Access.HasPermissionAgrees | internal/service/access.go:133-192 | checkPermission never grants what HasPermission refuses; without a decoding error they agree, and with one checkPermission denies while HasPermission reads the partly decoded flags |
| Access.StoredPermissionsRead | internal/service/access.go:133-192 | permissions stored through a lawful encoder are granted exactly as stored |
| Access.ValidateAccess | internal/service/access.go:38-68 | an unknown access key is ErrAccessDenied, and a granted key is the stored key with that access key |
| Access.ValidateAccessOrder | internal/service/access.go:38-68 | each of ErrKeyInactive, ErrKeyExpired, ErrIPNotAllowed and ErrPermissionDenied is reported exactly when every earlier check passed and its own check failed |
| Access.EmptyPermissionSkipsCheck | internal/service/access.go:61-65 | with an empty required permission, access is granted exactly when the key is valid and the address admitted, whatever the flags |
| Access.OpenWhitelist | internal/service/access.go:72-83 | a key without a restricting list admits every address |
| Access.ListedAddressAdmitted | internal/service/access.go:85-89 | an address listed verbatim is always admitted |
| Access.ValidateProjectAccess | internal/service/access.go:195-200 | access is granted exactly when the key's project is the requested one, else ErrAccessDenied |
| Registry.GetProject | internal/repository/project.go:27-34 | a stored project with the id, none exactly when no project has it |
| Registry.UpdateProject | internal/repository/project.go:58-60 | the project with the id is overwritten and every other row is kept |
| Registry.InsertProject | internal/repository/project.go:22-24 | a created project gets the next id and is appended; nothing else changes |
| Registry.InsertEnvironment | internal/repository/project.go:75-77 | a created environment row gets the next id and is appended; nothing else changes |
| Registry.GetKey | internal/repository/key.go:27-34 | a stored key with the id, none exactly when no key has it |
| Registry.GetKeyByAccessKey | internal/repository/key.go:37-44 | a stored key with the access key, none exactly when no key has it |
| Registry.UpdateKey | internal/repository/key.go:54-56 | the key with the id is overwritten and every other row is kept |
| Registry.InsertKey | internal/repository/key.go:22-24 | a created key gets the next id and is appended; nothing else changes |
| Registry.UpdateProjectAt | internal/repository/project.go:58-60 | with unique ids, saving a project under a stored id overwrites exactly that row and keeps the ids in order |
| Registry.GetProjectAfterUpdate | internal/repository/project.go:27-34 | a project saved under its id is what a lookup by that id then finds |
| Registry.UpdateKeyAt | internal/repository/key.go:54-56 | with unique ids, saving a key under a stored id overwrites exactly that row and keeps the ids in order |
| Registry.DeleteProject | internal/repository/project.go:63-65 | exactly the other projects remain |
| Registry.DeleteKey | internal/repository/key.go:59-61 | exactly the other keys remain |
| Registry.DeleteProjectKeepsGood | internal/repository/project.go:63-65 | deleting a project keeps the ids in order |
| Registry.DeleteKeyKeepsGood | internal/repository/key.go:59-61 | deleting a key keeps the ids in order |
| KeyService.AccessKeyOf | internal/service/key.go:42 | an access key is "ak_" followed by 24 characters, 27 in all |
| KeyService.SecretKeyOf | internal/service/key.go:43 | a secret key is "sk_" followed by the 36 characters of a UUID, 39 in all |
| KeyService.AccessKeysByPrefix | internal/service/key.go:42-43 | two access keys coincide exactly when the UUIDs' first 24 characters do, and no access key is a secret key |
| KeyService.WhitelistText | internal/service/key.go:63-68 | an empty request list is stored as "", any other as its JSON encoding |
| KeyService.Create | internal/service/key.go:41-86 | one key is appended with the next id, the project, the name, "ak_" access key, the secret's hash and the expiry, and it is active; nothing else in the registry changes |
| KeyService.ReadOnlyByFlags | internal/service/key.go:52-60 | a permission record that agrees with read only on all six flags is the read-only record |
| KeyService.CreatedKeyPermissions | internal/service/key.go:50-61 | the stored permissions read back as the requested map, and without a request as read only |
| KeyService.CreatedKeyWhitelist | internal/service/key.go:63-68 | the stored whitelist restricts exactly when the request listed addresses, and then to that list |
| KeyService.CreatedKeyGrants | internal/service/key.go:41-86 | a fresh, unexpired key passes ValidateAccess for a listed address (or any address without a list) exactly for the permissions it was created with |
| KeyService.CreateKeepsGood | internal/service/key.go:41-86 | creating a key keeps the registry's ids in order |
| KeyService.Merge | internal/service/key.go:110-126 | id, project, access key and secret hash never change, and every field absent from the request keeps its value |
| KeyService.MergeIdempotent | internal/service/key.go:110-126 | applying the same update twice is applying it once, and an empty request changes nothing |
| KeyService.Update | internal/service/key.go:104-129 | ErrKeyNotFound exactly for a missing id; otherwise only the key table changes, keeping its size |
| KeyService.UpdateOnlyTarget | internal/service/key.go:104-129 | an update overwrites exactly the key's row with the merged key, and an empty request changes nothing |
| KeyService.UniqueLookup | internal/repository/key.go:37-44 | with unique access keys, each stored key is found by its own access key |
| KeyService.ClearedWhitelistOpens | internal/service/key.go:117-120 | updating the whitelist to an empty list lifts the address restriction |
| KeyService.DeactivatedKeyRefused | internal/service/access.go:45-48 | after an update with is_active false, ValidateAccess refuses the key with ErrKeyInactive |
| KeyService.Delete | internal/service/key.go:132-138 | ErrKeyNotFound exactly for a missing id; otherwise exactly the other keys remain and nothing else changes |
| KeyService.DeleteKeepsGood | internal/service/key.go:132-138 | deleting a key keeps the registry's ids in order |
| KeyService.Regenerate | internal/service/key.go:141-164 | ErrKeyNotFound exactly for a missing id; otherwise only the access key and the secret hash of that key change |
| KeyService.RegenerateRevokesOldKey | internal/service/key.go:141-164 | after regeneration the old access key is no longer found, the new one finds the same key with everything but the two key fields kept, and access keys stay unique |
| KeyService.GetByAccessKey | internal/service/key.go:167-173 | the stored key with that access key, or ErrKeyNotFound exactly when there is none |
| ProjectService.InsertEnvironments | internal/service/project.go:88-96 | the environment rows are appended in the given order, each numbered by its position and owned by the project; nothing else changes |
| ProjectService.DefaultKeyRow | internal/service/project.go:108-126 | the default key belongs to the project, is active, has no expiry and no whitelist, an "ak_" access key and the hash of an "sk_" secret |
| ProjectService.Create | internal/service/project.go:45-105 | ErrProjectNameRequired exactly for an empty name, ErrProjectNameExists exactly for a taken name, success otherwise; a success appends one project, four environments and one key |
| ProjectService.CreatedProjectDefaults | internal/service/project.go:59-82 | access mode defaults to "key" and the branch to "main", other fields are taken from the request, and the public permissions read back as read = true, write = false |
| ProjectService.CreatedEnvironments | internal/service/project.go:88-96 | exactly four environments are added, dev, test, staging and prod, with sort orders 0..3 |
| ProjectService.DefaultKeyReadsAndWrites | internal/service/project.go:117-126 | the default key passes ValidateAccess for read and write and is refused delete, release, admin and decrypt |
| ProjectService.CreateKeepsGood | internal/service/project.go:45-105 | Create keeps the registry's ids in order |
| ProjectService.CreateTakesName | internal/service/project.go:51-57 | after a successful Create, names stay unique and the same request fails with ErrProjectNameExists |
| ProjectService.GetById | internal/service/project.go:145-151 | the stored project with the id, ErrProjectNotFound exactly when there is none |
| ProjectService.Apply | internal/service/project.go:175-197 | the name changes exactly when the request renames; every other empty request field leaves its value unchanged, and the other fields are never touched |
| ProjectService.Update | internal/service/project.go:168-200 | ErrProjectNotFound exactly for a missing id, ErrProjectNameExists exactly for a rename to a taken name, and only the project table changes on success |
| ProjectService.UpdateReadsBack | internal/service/project.go:168-200 | after an update, the project read back is the stored one with the request applied |
| ProjectService.SetKeepsNamesUnique | internal/service/project.go:175-183 | overwriting a project with one that keeps its name or takes a free name keeps names unique |
| ProjectService.UpdateKeepsNamesUnique | internal/service/project.go:175-183 | Update keeps project names unique |
| ProjectService.EmptyUpdateChangesNothing | internal/service/project.go:168-200 | an update with all fields empty changes nothing |
| ProjectService.Delete | internal/service/project.go:203-209 | ErrProjectNotFound exactly for a missing id; otherwise exactly the other projects remain and nothing else changes |
| ProjectService.DeleteKeepsGood | internal/service/project.go:203-209 | Delete keeps the registry's ids in order |
| Middleware.SplitFirstSpace | internal/middleware/auth.go:40 | the text splits at its first space, and there is no split exactly when it has no space |
| Middleware.JwtAuth | internal/middleware/auth.go:29-86 | a refusal is 401 exactly when the header is not "Bearer" plus a token the parser accepts; an accepted token whose user_id is not a number or whose username is not a string panics in the type assertion and is answered 500; otherwise the request goes on carrying the truncated user id, the username, all six permissions and no key or project |
| Middleware.ReadClaims | internal/middleware/auth.go:69-72 | the claims are read exactly when user_id is a number and username a string, giving the username and int64(user_id) |
| Middleware.ClaimsReadBack | internal/middleware/auth.go:69-72 | claims holding a whole user id in int64 range and a username read back as that id and name, whatever other claims they hold |
| Middleware.RequestAccessKey | internal/middleware/auth.go:91-94 | the header key wins, the query key is the fallback, and the result is empty exactly when both are |
| Middleware.ActiveKey | internal/middleware/auth.go:104-111 | an active stored key with the access key, none exactly when there is no such key |
| Middleware.AccessKeyAuth | internal/middleware/auth.go:89-159 | a missing key is 401; refusals are 401 or 403; a request goes on only with an active stored key and carries its id, project and the permissions Unmarshal leaves behind, its error ignored |
| Middleware.AccessKeyAuthAgreesWithService | internal/middleware/auth.go:89-142 | with unique access keys the middleware admits exactly what ValidateAccess grants, answering 403 exactly for the whitelist refusal, because both use the same IP matcher |
| Middleware.OptionalAuth | internal/middleware/auth.go:162-198 | a Bearer header runs the token check, else an access key runs the key check, else an anonymous read-only context is installed |
| Middleware.AnonymousReadsOnly | internal/middleware/auth.go:189-196 | an anonymous caller passes the permission check for "read" and for nothing else |
| Middleware.RequirePermission | internal/middleware/auth.go:201-240 | no auth context is 401; otherwise the request passes exactly when the named flag is set, and is refused with 403 otherwise, unknown names included |
| Middleware.TokenHoldersPassEverything | internal/middleware/auth.go:70-81 | a token holder passes the permission check for every one of the six names and no other |
| Signature.Values | internal/middleware/signature.go:124 | a key absent from the query has no values |
| Signature.SignedKeys | internal/middleware/signature.go:114-119 | the keys signed are exactly the query's keys other than "signature" |
| Signature.SortedKeys | internal/middleware/signature.go:114-120 | the signed keys in ascending order, each key of the query other than "signature" and nothing else |
| Signature.Assignments | internal/middleware/signature.go:124-126 | one "k=v" per value of the key, in the query's value order |
| Signature.StringToSign | internal/middleware/signature.go:103-140 | the string to sign is method, path, query part, access key, timestamp and nonce joined by newlines, in that order |
| Signature.WithoutSignatureValues | internal/middleware/signature.go:116 | dropping the "signature" parameter keeps every other key's values |
| Signature.SignatureParamIgnored | internal/middleware/signature.go:113-128 | the query part is the same with or without the "signature" parameter |
| Signature.AbsInt64 | internal/middleware/signature.go:150-155 | abs on int64 stays in int64 and, except at the minimum value, is non-negative and equal to n or -n |
| Signature.Abs | internal/middleware/signature.go:150-155 | the mathematical absolute value is n or -n |
| Signature.AbsSymmetric | internal/middleware/signature.go:150-155 | abs(-n) = abs(n) |
| Signature.FreshWindow | internal/middleware/signature.go:66-73 | a timestamp is accepted exactly when it lies within 300 seconds of the clock, on either side |
| Signature.FreshAgrees | internal/middleware/signature.go:66-73 | whenever now - ts does not overflow int64, the check as written accepts exactly the timestamps within the window |
| Signature.SignatureAuth | internal/middleware/signature.go:31-100 | a missing access key is 401 UNAUTHORIZED; a request without a signature passes unverified; every refusal is 401; a signed request passes only with an int64 timestamp that the written test abs(now - ts) <= 300 accepts in wrapping int64 arithmetic, an active key and the HMAC of the string to sign under that key's stored secret hash |
| Signature.AncientRequestPasses | internal/middleware/signature.go:57-98 | as written, a correctly signed request with timestamp -2^63 passes at clock reading 0 although it lies outside the window |
| Signature.SignedRequestPasses | internal/middleware/signature.go:57-98 | a fresh request signed correctly with an active key passes |
| Signature.TimestampParses | internal/middleware/signature.go:57 | the decimal text of an int64 timestamp parses back to it |
| Signature.StaleRequestRefused | internal/middleware/signature.go:66-73 | a signed request whose timestamp lies outside the window is refused with 401 INVALID_SIGNATURE whenever now - ts neither overflows int64 nor equals its minimum |
| Audit.ActionOf | internal/middleware/audit.go:75-86 | POST is "create", PUT and PATCH are "update", DELETE is "delete", everything else is "read" |
| Audit.ParseId | internal/middleware/audit.go:134-144 | the result is an int64 and is 0 for any text with a non-digit |
| Audit.AccumulateValue | internal/middleware/audit.go:136-143 | while the value stays within int64, the digit loop computes the decimal value |
| Audit.DigitsSplit | internal/middleware/audit.go:138 | the leading digit contributes its place value to the decimal value |
| Audit.ParseIdDecimal | internal/middleware/audit.go:134-144 | an all-digit text whose value fits in int64 (the empty text included) is read as that value |
| Audit.FirstId | internal/middleware/audit.go:108-116 | the id is the parse of the first segment that parses positive, and 0 exactly when none does |
| Audit.NormalType | internal/middleware/audit.go:119-130 | resource types other than projects, configs, config, keys and releases pass through unchanged |
| Audit.ParseResource | internal/middleware/audit.go:89-131 | after trimming "/" and dropping a leading "api" and then "v1"/"v2", an empty remainder gives ("", 0); otherwise the normalised first segment and the first positive id among the rest |
| Audit.Truncate | internal/middleware/audit.go:147-152 | a body within the limit is kept whole; a longer one becomes its first max bytes followed by "...", max + 3 bytes in all |
| Audit.AuditEntry | internal/middleware/audit.go:15-72 | a row is written exactly for non-GET requests outside /health and /static that leave an auth context; it carries the action, the parsed resource, the truncated body, and the user, key and project only when positive |
| PublicConfig.UserId | internal/api/helper.go:13-20 | 0 without an auth context, else the context's user id |
| PublicConfig.AccessKeyId | internal/api/helper.go:23-30 | 0 without an auth context, else the context's key id |
| PublicConfig.ProjectId | internal/api/helper.go:33-40 | 0 without an auth context, else the context's project id |
| PublicConfig.OnlyKeyCallersHaveProject | internal/middleware/auth.go:70-82 | a context built from a bearer token, like the empty context, carries project 0, so only access-key callers get past the public handlers' project check |
| PublicConfig.DecryptSensitiveFields | internal/api/public_config.go:312-325 | content that does not decode as a JSON object comes back unchanged |
| PublicConfig.PublicDecryptAgrees | internal/api/public_config.go:332-337 | the handler's rewrite agrees with the service's DecryptWithPrefix except on the bare "ENC:", which it leaves alone |
| PublicConfig.DecryptSensitiveFieldsIsDecryptFields | internal/api/public_config.go:312-348 | when decrypting the empty text fails, the handler's decryption is the service's DecryptFields, its failure leaving the content as it was |
| PublicConfig.AccessEntry | internal/api/public_config.go:351-367 | the access row names the project, the access key only when positive, the action, the configuration as a "config" resource and the client's address and user agent, with no user and no body |
| PublicConfig.Get | internal/api/public_config.go:37-86 | 401 without a project, 400 without a name, 404 exactly when the access-key lookup fails, and no other refusal is possible; a served read writes the "read" access row of the configuration found |
| PublicConfig.GetServesCurrent | internal/api/public_config.go:59-82 | under the store invariant, a served read carries the current version's content (decrypted exactly for callers with the decrypt permission) |
| PublicConfig.AuthorOf | internal/api/public_config.go:126-130 | the author is "api" without a positive key id, else "key:" followed by decimal digits |
| PublicConfig.AuthorNamesKey | internal/api/public_config.go:128-130 | the digits after "key:" parse back to the caller's key id |
| PublicConfig.UpdateChange | internal/api/public_config.go:145-152 | the published change names the configuration, the new version and the type "update" |
| PublicConfig.Update | internal/api/public_config.go:91-158 | 401 without a project, 400 without a name or content, 404 exactly when the configuration is not found; refusals change neither the store nor the hub; an access row is written exactly on success, as "update" of the configuration found |
| PublicConfig.UpdateIsServiceUpdate | internal/api/public_config.go:117-157 | a successful public update is ConfigService.Update with the message defaulted and the author derived from the key, followed by a notification of the new version |
| PublicConfig.UpdateNotifiesWatchers | internal/api/public_config.go:137-157 | after an update the reply carries CurrentVersion + 1, and a waiting subscriber with room finds that change last in its queue |
| PublicConfig.CreateBound | internal/api/public_config.go:182-210 | for a caller with a project, a refusal changes nothing; a created configuration belongs to the caller's project, bears the requested name and the requested file type, "json" when none was given; an access row is written exactly on success, as "create" of the new configuration |
| PublicConfig.Create | internal/api/public_config.go:162-210 | 401 without a project; the binding refuses with 400 any request lacking a name, a file type or a content; a refusal changes nothing and writes no access row; a created configuration belongs to the caller's project with the requested name and file type |
| PublicConfig.CreateDefaultingType | internal/api/public_config.go:182-184 | with the file type optional, 401 without a project and 400 without a name or content |
| PublicConfig.FileTypeDefaultUnreachable | internal/api/public_config.go:172-184 | as written, a request without a file type is refused with 400 before the default is reached |
| PublicConfig.FileTypeDefaultsToJson | internal/api/public_config.go:182-184 | with the default in effect, leaving out the file type is asking for JSON, and with a file type given the defaulting handler agrees with Create as written |
| PublicConfig.RequestedVersion | internal/api/public_config.go:237-240 | the version parameter is 0 when absent, else what Atoi yields (0 for text that is not a number) |
| PublicConfig.Timeout | internal/api/public_config.go:242-251 | the timeout is 30 when absent and otherwise the parsed value clamped into [1, 60] |
| PublicConfig.TimeoutReadsDecimal | internal/api/public_config.go:242-251 | the decimal text of n is used as is when n is in [1, 60], gives 60 above, 1 for 0, and non-numeric text gives 1 |
| PublicConfig.WatchBegin | internal/api/public_config.go:215-283 | 401 without a project, 400 without a name, 404 exactly when the configuration is not found; an immediate "changed" reply carries a version newer than the client's |
| PublicConfig.ImmediateReplyIffNewer | internal/api/public_config.go:262-272 | under the store invariant, Watch answers at once exactly when the current version exceeds the client's version, with that version's content; otherwise it subscribes |
| PublicConfig.WatchEnd | internal/api/public_config.go:285-308 | a timeout is 304, a vanished client gets no reply, a change for another configuration is 304, and a payload comes only from a change of this configuration |
| PublicConfig.WakeServesCurrent | internal/api/public_config.go:286-299 | a change of this configuration wakes the watcher with the current version and its content |
| JsonValue.Lookup | internal/service/environment.go:130 | a key is found exactly when it is among the object's keys, and the value found is the one stored with it |
| JsonValue.Put | internal/service/environment.go:138 | assigning a key keeps the fields canonical, makes the key read back the assigned value and leaves every other key's lookup unchanged |
| JsonValue.PutKeys | internal/service/environment.go:124-126 | assigning a key adds exactly that key to the key set |
| JsonValue.Extensional | internal/service/env_diff.go:169-173 | two canonical objects that agree on every lookup are the same object, so equality of decoded values is Go's deep equality of maps |
| JsonValue.SameTypeIsSameConstructor | internal/service/schema.go:394-413 | two decoded values get the same JSON type name exactly when they are of the same kind (null, boolean, number, string, array, object) |
| JsonValue.ParseObject | internal/service/env_diff.go:84-90 | decoding into a map succeeds only on text the library decodes, and the fields it yields are canonical; `null` yields a nil map |
| JsonDiff.IndexLabel | internal/service/diff.go:202 | the label of a non-negative index is its decimal spelling, all digits and reading back as the index |
| JsonDiff.IndexLabelInjective | internal/service/diff.go:202 | distinct indices get distinct labels, so no two array items share a path |
| JsonDiff.IndexLabelsAgreeBelowTen | internal/service/diff.go:202 | the written `rune('0'+i)` label and the decimal label agree for indices 0 to 9 |
| JsonDiff.EleventhItemPath | internal/service/diff.go:195-204 | as written, an item appended after ten items is reported at path "[:]"; with the decimal label it is "[10]" |
| JsonDiff.AppendedItems | internal/service/diff.go:199-204 | an item present only in the new array is reported as one "add" at its index, carrying the new value |
| JsonDiff.CompareEmptyIffEqual | internal/service/diff.go:129-131 | comparing two decoded values reports nothing exactly when they are deeply equal |
| JsonDiff.CompareFieldsEmptyIffEqual | internal/service/diff.go:147-190 | the member-by-member walk over the sorted union of keys reports nothing exactly when the two objects are equal |
| JsonDiff.CompareItemsEmptyIffEqual | internal/service/diff.go:192-218 | the index-by-index walk reports nothing exactly when the two arrays are equal |
| JsonDiff.FlipAll | internal/service/diff.go:171-189 | flipping keeps the number and order of changes and swaps each change's direction |
| JsonDiff.FlipAllAppend | internal/service/diff.go:171-189 | flipping distributes over concatenation |
| JsonDiff.CompareSwap | internal/service/diff.go:129-228 | comparing b with a yields, in the same order and at the same paths, the changes of comparing a with b with add and remove exchanged and old and new values swapped |
| JsonDiff.CompareFieldsSwap | internal/service/diff.go:165-190 | the same symmetry for the walk over an object's keys |
| JsonDiff.CompareItemsSwap | internal/service/diff.go:192-218 | the same symmetry for the walk over an array's indices |
| JsonDiff.DiffJson | internal/service/diff.go:113-126 | an error exactly when either text fails to decode; otherwise no change is reported exactly when both decode to the same value |
| JsonDiff.DiffJsonEleventhItem | internal/service/diff.go:113-126 | the handler labels array items as the code spells them: an item appended after ten is reported at "[:]" |
| JsonDiff.DiffJsonSwap | internal/service/diff.go:113-126 | swapping the two texts flips the reported changes |
| LineDiff.Step | internal/service/diff.go:51-105 | one round of the loop emits one or two entries, all bearing the round's line number |
| LineDiff.StepViews | internal/service/diff.go:51-105 | one round advances each cursor by one unless that side is exhausted, advances at least one, and emits exactly the old lines and the new lines it passes over, numbered from 1 |
| LineDiff.SimpleDiff | internal/service/diff.go:45-109 | reading only the removed and unchanged entries gives back the old lines with their numbers, reading only the added and unchanged entries gives back the new lines, and line numbers run 1 to the longer length |
| LineDiff.DiffLines | internal/service/diff.go:36-42 | joining the old side's texts with newlines rebuilds the old content exactly, and likewise for the new content |
| LineDiff.GetDiffSummary | internal/service/diff.go:231-250 | the three counts add up to the number of entries |
| LineDiff.SummaryCountsSides | internal/service/diff.go:231-250 | removed plus unchanged counts the old side's entries, added plus unchanged counts the new side's |
| LineDiff.DiffLinesSummary | internal/service/diff.go:36-42 | for a line diff, removed plus unchanged is the number of old lines and added plus unchanged the number of new lines |
| EnvDiff.ValuesEqualIsEquality | internal/service/env_diff.go:169-173 | with a library whose encoding round-trips, comparing the encodings of two values it can hold (as it can any value it decoded) is equality of the values |
| EnvDiff.CompareMap | internal/service/env_diff.go:119-166 | every recorded difference is of kind "modified" |
| EnvDiff.CompareSelf | internal/service/env_diff.go:119-166 | a map compared with itself yields no difference and no one-sided key |
| EnvDiff.EmptyIffEqual | internal/service/env_diff.go:119-166 | with a round-tripping library, the comparison of two maps it can hold (as it can any it decoded) is empty exactly when they are equal |
| EnvDiff.SwapDifferences | internal/service/env_diff.go:158-163 | swapping keeps the order and paths of differences and exchanges source and target values |
| EnvDiff.SwapConcat | internal/service/env_diff.go:134-165 | swapping distributes over concatenating comparisons |
| EnvDiff.CompareSwap | internal/service/env_diff.go:119-166 | comparing target with source exchanges the two one-sided key lists and swaps the values of each difference |
| EnvDiff.OnlyInTargetListed | internal/service/env_diff.go:143-146 | a key only the target has is listed, with its dotted path, among the keys only in the target |
| EnvDiff.OnlyInSourceListed | internal/service/env_diff.go:147-150 | a key only the source has is listed among the keys only in the source |
| EnvDiff.Summarize | internal/service/env_diff.go:102-113 | added and removed counts are the one-sided list lengths, all differences count as modified, the total is their sum, and the summary is all zero exactly when the comparison is empty |
| EnvDiff.CountModified | internal/service/env_diff.go:109-113 | the modified count never exceeds the differences and equals them exactly when all are of kind "modified" |
| EnvDiff.CompareContent | internal/service/env_diff.go:82-116 | an error exactly when either text does not decode as a map; otherwise the summary counts the lists, and with a round-tripping library the comparison is empty exactly when the two decoded maps are equal |
| EnvDiff.CompareContentSelf | internal/service/env_diff.go:82-116 | a decodable content compared with itself has an all-zero summary |
| EnvDiff.LatestInEnv | internal/service/env_diff.go:59-66 | not found exactly when no configuration of that name lives in the environment; otherwise the result is that configuration's latest stored version |
| EnvDiff.Compare | internal/service/env_diff.go:52-79 | not found for an unknown configuration; a result is the comparison of the two environments' latest contents |
| EnvDiff.DecodeMap | internal/service/env_diff.go:202-204 | a map comes back exactly when the content decodes as a non-null JSON object |
| EnvDiff.CopyKeys | internal/service/env_diff.go:210-214 | afterwards each listed key that the source has reads the source's value, and every other key reads the target's |
| EnvDiff.CopyKey | internal/service/env_diff.go:211-213 | copying one key changes only that key, and only when the source has it |
| EnvDiff.AsWrittenCopiesIntoMap | internal/service/env_diff.go:210-214 | on a non-nil target the written loop computes the same map as CopyKeys |
| EnvDiff.AsWrittenPanicsOnNullTarget | internal/service/env_diff.go:204-212 | as written, when the target content is `null` and a listed key exists in the source, the assignment into the nil map panics |
| EnvDiff.SyncData | internal/service/env_diff.go:206-215 | without a key list the target becomes the source; with one, listed keys present in the source are copied over the target, a nil target being treated as empty |
| EnvDiff.SyncDataAsWritten | internal/service/env_diff.go:206-215 | the written update of the target map never panics on a target that is a map; a panic needs a nil target and a non-empty key list |
| EnvDiff.SyncDataAgrees | internal/service/env_diff.go:206-215 | on a target that decodes to a map the written update is the intended SyncData |
| EnvDiff.AsWrittenOnNilTarget | internal/service/env_diff.go:210-214 | on a nil target the written loop panics exactly when some listed key exists in the source, and otherwise leaves the target nil |
| EnvDiff.SyncedContent | internal/service/env_diff.go:202-218 | the new target text is missing (a panic) exactly when the target content decodes to no JSON object (`null`, an array, a scalar or invalid text) and a listed key exists in the source; for a target that decodes to an object it is the encoded SyncData |
| EnvDiff.Sync | internal/service/env_diff.go:176-221 | an error changes nothing and an unknown configuration is not found; once both environments' latest versions are found, the panic of the written loop is answered as an internal error exactly where SyncedContent has no text, and success overwrites the target environment's latest version with that text |
| EnvDiff.SyncAllCopiesSource | internal/service/env_diff.go:207-208 | with a round-tripping library and no key list, the written update never panics, and the target's new text decodes to the source's map (nil when the source held no object), whatever the target held |
| EnvironmentService.Custom | internal/service/environment.go:57-64 | a project's own environment list is used only when its settings decode to a non-empty list |
| EnvironmentService.List | internal/service/environment.go:50-67 | project not found exactly for an unknown project; otherwise a non-empty list: the project's own list when it has one, else dev, test, staging and prod |
| EnvironmentService.ListSaved | internal/service/environment.go:57-64 | settings written from a non-empty list read back as that list |
| EnvironmentService.Create | internal/service/environment.go:70-93 | project not found for an unknown project, exists when the name is already listed; success rewrites only that project's settings, appending the environment with order one past the list's length |
| EnvironmentService.CreateThenList | internal/service/environment.go:70-93 | after creating an environment, listing yields the previous list followed by the new environment numbered one past it |
| EnvironmentService.CreateRejectsDuplicate | internal/service/environment.go:77-82 | creating an environment whose name is already listed is refused as existing |
| EnvironmentService.MergeValue | internal/service/environment.go:129-138 | an override replaces the base value unless both are objects, and the result is an object exactly when the override is |
| EnvironmentService.DeepMerge | internal/service/environment.go:121-143 | keys the override lacks keep the base's value, and each override key holds the override value merged with the base's value under that key |
| EnvironmentService.MergeInto | internal/service/environment.go:128-140 | folding override entries into an accumulator satisfies the same two laws as the merge |
| EnvironmentService.MergeKeys | internal/service/environment.go:121-143 | the merged keys are the union of the base keys and the override keys |
| EnvironmentService.MergeEmptyOverride | internal/service/environment.go:121-143 | merging an empty override leaves the base as it is |
| EnvironmentService.MergeIntoEmptyBase | internal/service/environment.go:121-143 | merging into an empty base yields the override |
| EnvironmentService.MergeSelf | internal/service/environment.go:121-143 | merging a map with itself yields the map |
| EnvironmentService.MergeConfig | internal/service/environment.go:96-118 | the base must decode as a map, an empty environment content returns the base text untouched, an undecodable environment content is the second error, and otherwise the result is the indented encoding of the deep merge |
| EnvironmentService.MergeConfigKeys | internal/service/environment.go:110-117 | with a round-tripping library, the merged text decodes to the deep merge of the two decoded objects, whose keys are the base's and the environment's |
| EnvironmentService.GetConfigForEnv | internal/service/environment.go:146-182 | not found for an unknown configuration, the latest-version error when it has no version, otherwise its latest version with the environment overlay applied |
| EnvironmentService.Overlay | internal/service/environment.go:161-181 | only the content can change; a matching or empty environment, a missing base or a failed merge keep the version, and a changed content is the merge of the base's latest content with this version's |
| EnvironmentService.BaseContent | internal/service/environment.go:166-174 | a base content exists exactly when a configuration of the same project, name and namespace with an empty environment has a latest version |
| EnvironmentService.OverlayOnEmptyBase | internal/service/environment.go:161-181 | with a round-tripping library, over an empty base object the overlaid content decodes to the environment's own decoded map |
| Schema.JsonType | internal/service/schema.go:394-413 | a decoded value's type name is never empty and never "integer" |
| Schema.TypeCheckAdmits | internal/service/schema.go:416-428 | the type check passes exactly when the schema type admits the value's kind, "integer" admitting every number |
| Schema.ValidateValue | internal/service/schema.go:227-391 | every issue lies at or below the value's path; a type mismatch is the single issue reported; an admitted value under a type without further keywords, or under no type, is clean; the only failure is the panic on a non-string required entry |
| Schema.Check | internal/service/schema.go:233-388 | the same laws stated over the schema's decoded keywords; an object under "object" goes to the object checks and an array under "array" to the array checks |
| Schema.ObjectIssues | internal/service/schema.go:245-281 | the object checks report only at or below the object's path; they fail exactly when the required check or the properties walk fails, and otherwise report the required check's issues first and every issue of the properties walk |
| Schema.ArrayIssues | internal/service/schema.go:283-318 | the array checks report only at or below the array's path; they fail exactly when the items walk fails, and otherwise report the length issues first and every issue of the items walk |
| Schema.CountIssues | internal/service/schema.go:289-307 | the length checks report at the array's path, and report nothing exactly when the length lies within the given bounds |
| Schema.Required | internal/service/schema.go:252-266 | it panics exactly when some required entry is not a string, and otherwise reports only below the object's path |
| Schema.RequiredReportsMissing | internal/service/schema.go:252-266 | a missing-field issue is reported for a name exactly when the name is required and the object lacks it |
| Schema.Properties | internal/service/schema.go:269-281 | the property checks report only below the object's path |
| Schema.PropertiesCollect | internal/service/schema.go:269-281 | the properties walk fails exactly when some entry's check fails, and otherwise every entry's issues appear in its result |
| Schema.PropertiesOnly | internal/service/schema.go:269-281 | every issue of the properties walk comes from one of its entries |
| Schema.PropertiesPropagate | internal/service/schema.go:269-281 | the properties walk fails exactly when some entry's check fails; otherwise it reports every issue of every member validated at its member path, and only issues of its entries |
| Schema.Property | internal/service/schema.go:270-279 | a property the object lacks, or whose schema is not an object, contributes nothing; otherwise the member is validated at its member path against the property's schema |
| Schema.Items | internal/service/schema.go:310-318 | the item checks report only below the array's path |
| Schema.ItemsPropagate | internal/service/schema.go:310-318 | the items walk fails exactly when some item's validation fails; otherwise it reports every issue of every item, validated at its index path, and only those |
| Schema.ItemIssuesReachArray | internal/service/schema.go:283-318 | a failing item makes the whole array's validation fail, and every issue of an item appears in the array's result |
| Schema.MemberIssuesReachObject | internal/service/schema.go:245-281 | a failing listed member makes the whole object's validation fail, and every issue of a listed member appears in the object's result |
| Schema.StringIssues | internal/service/schema.go:320-361 | issues lie at the string's path, at most three; a too-short, too-long or not-in-enum issue is reported exactly when the byte length or the enum membership fails that keyword |
| Schema.NumberIssues | internal/service/schema.go:363-387 | issues lie at the number's path and none is reported exactly when the number is within the bounds given |
| Schema.Infer | internal/service/schema.go:164-224 | an inferred schema is always an object |
| Schema.InferKeywords | internal/service/schema.go:164-224 | the inferred schema's type names the value's kind (whole numbers "integer"), an array's items come from its first item or are empty, and an object's properties are inferred member by member with every key required when there is one |
| Schema.InferFields | internal/service/schema.go:208-211 | the properties keep the object's keys in order, each with the schema inferred from its value |
| Schema.KeyNames | internal/service/schema.go:208-211 | the required list names the object's keys in order |
| Schema.InferWellFormed | internal/service/schema.go:164-224 | the inferred schema is a canonical decoded value |
| Schema.InferTyped | internal/service/schema.go:164-224 | every inferred schema carries a type |
| Schema.InferredSchemaAccepts | internal/service/schema.go:164-391 | a value whose arrays are uniform, in the sense that every item infers the schema of the first, passes validation against its own inferred schema |
| Schema.ScalarClean | internal/service/schema.go:233-244 | a scalar admitted by a bare type schema has no issue |
| Schema.ArrayOfItems | internal/service/schema.go:283-318 | an array under a schema with only a type and items reports exactly its items' issues |
| Schema.ObjectClean | internal/service/schema.go:245-281 | an object whose required names and properties pass is clean |
| Schema.KeysRequired | internal/service/schema.go:252-266 | requiring an object's own keys reports nothing |
| Schema.ItemsAccepted | internal/service/schema.go:310-318 | items that each pass make the item check pass |
| Schema.PropertiesAccepted | internal/service/schema.go:269-281 | properties that each pass make the property check pass |
| Schema.RequiredAllPresent | internal/service/schema.go:252-266 | required names that are all present strings report nothing |
| Schema.FirstItemDecides | internal/service/schema.go:187-194 | the schema of `[1, "a"]` is inferred from its first item, so the document fails its own schema at "[1]" |
| Schema.Get | internal/service/schema.go:34-45 | not found for an unknown configuration, no schema exactly when the stored schema is empty, otherwise the stored schema |
| Schema.CheckSchema | internal/service/schema.go:149-161 | a schema is invalid exactly when it does not decode as a map, and accepted exactly when it also has a "type" key |
| Schema.Update | internal/service/schema.go:48-61 | an error changes nothing; not found for an unknown configuration; for a known one it fails exactly when the schema check does, with that error |
| Schema.UpdateThenGet | internal/service/schema.go:48-61 | after a successful update, Get returns the new schema, or no schema when it was empty |
| Schema.UpdateKeepsGood | internal/service/schema.go:48-61 | an update keeps the store invariant |
| Schema.Draft | internal/service/schema.go:84 | the generated schema opens with the draft-07 "$schema" key |
| Schema.Generate | internal/service/schema.go:64-98 | not found for an unknown configuration, a content error without a latest version, a JSON error when it does not decode; success stores and returns the indented encoding of the inferred schema with the draft key |
| Schema.GenerateKeepsGood | internal/service/schema.go:64-98 | generation keeps the store invariant |
| Schema.GeneratedPassesCheck | internal/service/schema.go:64-98 | with a round-tripping library, a schema generated from any decoded content passes the schema check |
| Schema.DraftKeyIgnored | internal/service/schema.go:227-391 | the "$schema" key plays no part in validation |
| Schema.Validate | internal/service/schema.go:101-132 | non-JSON content is invalid with one root issue, an undecodable schema is an error, and a result is valid exactly when it lists no issue; otherwise it fails exactly when validating the content against the decoded schema fails and lists exactly that validation's issues |
| Schema.ValidateConfig | internal/service/schema.go:135-146 | no stored schema means valid, an unknown configuration is not found, otherwise Validate against the stored schema |
| Schema.GenerateThenValidate | internal/service/schema.go:64-146 | with a round-tripping library, after generating a schema from a uniform latest content, validating that content against the configuration is valid with no issue |
| Parser.ParseJSON | internal/service/parser.go:34-65 | the type is "json"; the result is valid exactly when there is no error, exactly when the text is valid and decodes; invalid text gives the one "invalid JSON" message; valid content is the indented re-encoding |
| Parser.ParseYAML | internal/service/parser.go:68-96 | the type is "yaml"; valid exactly when the YAML decodes, otherwise the one decode message; valid content is the indented JSON of the converted tree |
| Parser.DetectAndParse | internal/service/parser.go:99-109 | the trimmed text is parsed as JSON when it opens with "{" or "[", and as YAML otherwise |
| Parser.DetectedType | internal/service/parser.go:99-109 | the reported file type is "json" exactly when the trimmed text opens with a bracket or brace |
| Parser.LeadingSpaceIgnored | internal/service/parser.go:100 | leading white space does not change the outcome |
| Parser.FormatJSON | internal/service/parser.go:112-124 | an error exactly when the text does not decode |
| Parser.MinifyJSON | internal/service/parser.go:127-139 | an error exactly when the text does not decode |
| Parser.FormatKeepsDocument | internal/service/parser.go:112-139 | with a round-tripping library, formatting and minifying any text it decodes keep the decoded document, and each is idempotent |
| Parser.YamlToJsonText | internal/service/config.go:63-74 | the upload fails with the YAML error exactly when the text does not decode or some mapping has a key that is not a string; otherwise it stores the JSON encoding of the tree |
| Parser.YamlOfJsonRoundTrip | internal/service/config.go:63-74 | YAML that decodes to a JSON document whose numbers the JSON library can hold is stored as text that decodes back to that document |
| Parser.EmbedStringKeyed | internal/service/config.go:63-74 | a JSON document read as YAML has only string keys |
| YamlValue.KeyText | internal/service/parser.go:158 | a string key is spelt as itself and an integer key in decimal |
| YamlValue.Convert | internal/service/parser.go:147-171 | the result is canonical JSON; sequences stay arrays of the same length, mappings become objects, strings and null pass through |
| YamlValue.ConvertItems | internal/service/parser.go:162-167 | the converted sequence has the same length and canonical items |
| YamlValue.ConvertEntries | internal/service/parser.go:149-161 | a converted mapping is a canonical object |
| YamlValue.ConvertEntriesLookup | internal/service/parser.go:155-160 | each key's spelling reads the converted value of the last entry spelt that way |
| YamlValue.ConvertEmbed | internal/service/parser.go:147-171 | converting a JSON document read as YAML gives the document back |
| YamlValue.ConvertEmbedFields | internal/service/parser.go:149-154 | the same for an object's fields |
| YamlValue.ConvertIdempotent | internal/service/parser.go:147-171 | converting twice is converting once |
| Encryption.NormalizeKey | internal/service/encryption.go:30-43 | the key is exactly 32 bytes: the given bytes, zero-padded when short and cut when long |
| Encryption.NewService | internal/service/encryption.go:30-43 | the service's key is a valid AES-256 key made from the UTF-8 bytes of the text |
| Encryption.NormalizeKeyIdempotent | internal/service/encryption.go:30-43 | normalising twice is normalising once, and a 32-byte key is kept as is |
| Encryption.ZeroPaddedKeysCollide | internal/service/encryption.go:32-35 | a short key and the same key with a trailing zero byte give the same service key |
| Encryption.Encrypt | internal/service/encryption.go:46-64 | encryption fails, with the encryption error, exactly when the key is not a valid AES key or no nonce could be read |
| Encryption.Decrypt | internal/service/encryption.go:67-95 | failures are the decryption error; text that is not base64, or shorter than a nonce, fails; a plaintext is what GCM opens from the data after the leading nonce |
| Encryption.EncryptWithPrefix | internal/service/encryption.go:98-104 | it fails exactly when Encrypt does; otherwise the value is "ENC:" followed by Encrypt's output |
| Encryption.DecryptWithPrefix | internal/service/encryption.go:107-112 | a value without the prefix comes back unchanged; a prefixed one is decrypted after the prefix |
| Encryption.DecryptEncrypted | internal/service/encryption.go:98-112 | with a lawful AES-GCM and base64, decrypting an encrypted value gives the plaintext back |
| Encryption.WalkFields | internal/service/encryption.go:157-184 | the walk keeps an object's keys and order and rewrites each member at its dotted path |
| Encryption.WalkMember | internal/service/encryption.go:164-182 | numbers, booleans and null are left alone |
| Encryption.WalkItems | internal/service/encryption.go:176-181 | inside an array only objects are walked, under the array's own path; other items stay as they are |
| Encryption.WalkWellFormed | internal/service/encryption.go:157-184 | the walk keeps a document canonical |
| Encryption.FixedWalk | internal/service/encryption.go:157-184 | a walk whose rewrite fixes every string it meets leaves the document unchanged |
| Encryption.WalkThen | internal/service/encryption.go:157-207 | two walks in a row are one walk with the composed rewrite |
| Encryption.WalkEstablishes | internal/service/encryption.go:157-184 | a property every rewrite result has holds of every rewritten string after the walk |
| Encryption.Transform | internal/service/encryption.go:120-154 | an unmarshal error exactly when the content does not decode as a map; `null` stays `null` |
| Encryption.Selection | internal/service/encryption.go:126-129 | the field set holds exactly the listed names |
| Encryption.EncryptFields | internal/service/encryption.go:120-138 | an error exactly when the content does not decode as a map |
| Encryption.DecryptFields | internal/service/encryption.go:141-154 | an error exactly when the content does not decode as a map |
| Encryption.MaskEncryptedFields | internal/service/encryption.go:210-223 | an error exactly when the content does not decode as a map |
| Encryption.EncryptTouchesOnlySelected | internal/service/encryption.go:166 | members matched neither by dotted path nor by bare key are left unchanged |
| Encryption.EncryptSealsSelected | internal/service/encryption.go:165-173 | with a valid key and a nonce always available, every selected string ends up carrying the "ENC:" prefix |
| Encryption.DecryptUndoesEncrypt | internal/service/encryption.go:165-196 | on a string not already encrypted, decrypting after encrypting gives it back |
| Encryption.EncryptThenDecrypt | internal/service/encryption.go:157-207 | on a document without encrypted strings, decrypting all fields after encrypting the selected ones restores the document |
| Encryption.EncryptFieldsThenDecryptFields | internal/service/encryption.go:120-154 | with a round-tripping library, on decodable content without encrypted strings, DecryptFields after EncryptFields yields the compact encoding of the original document |
| Encryption.MaskLeavesNothingEncrypted | internal/service/encryption.go:226-243 | after masking, no string the walk reaches carries the "ENC:" prefix |
| Encryption.PlainDocumentUnchanged | internal/service/encryption.go:187-243 | a document without encrypted strings is left alone by both masking and decryption |
| Encryption.MaskSkipsArrayStrings | internal/service/encryption.go:229-240 | an encrypted string directly inside an array is not masked, while the same string as a member is |
| Notification.Subscribe | internal/service/notification.go:36-44 | the client gets a fresh empty queue, replacing any earlier one, and every other client's queue is kept |
| Notification.Unsubscribe | internal/service/notification.go:47-55 | the client's queue is removed and no other; an unknown client changes nothing |
| Notification.Offer | internal/service/notification.go:63-67 | a change joins the end of a queue holding fewer than 10 and is dropped from a full one |
| Notification.NotifyChange | internal/service/notification.go:58-71 | the subscribers stay the same; every queue with room gets the change at its end and every full queue is left as it was |
| Notification.Receive | internal/api/public_config.go:285-299 | nothing is received exactly when the client is unknown or its queue is empty; otherwise the first queued change is taken and no other queue changes |
| Notification.OperationsStayBounded | internal/service/notification.go:40 | no operation lets a queue grow past its capacity of 10 |
| Notification.UnsubscribeIdempotent | internal/service/notification.go:47-55 | unsubscribing twice is unsubscribing once |
| Notification.ConfigIdsIgnored | internal/service/notification.go:36-44 | the configuration ids given at subscription do not affect which changes a client is sent |
| Notification.SubscriberReceives | internal/service/notification.go:36-71 | a fresh subscriber receives the next change notified |
| Notification.FirstInFirstOut | internal/service/notification.go:58-71 | two changes notified to a client with an empty queue are received in the order they were notified |
| Settings.GetEnvFinds | internal/config/config.go:185-192 | the lookup is empty exactly when every name is unset or empty; otherwise it is the value of the first name that is set |
| Settings.GetEnvFirst | internal/config/config.go:185-192 | when earlier names are empty, the first set name's value is returned |
| Settings.SameGetEnv | internal/config/config.go:185-192 | setting a variable outside the name list does not change the lookup |
| Settings.DbSourceOf | internal/config/config.go:95-117 | a database source exists exactly when host, user, password and name are all given, and it carries them; the port defaults to 3306 and the driver to mysql when unset; TLS follows DB_TLS when it is set and otherwise means the host contains "tidbcloud.com" |
| Settings.Dsn | internal/config/config.go:119-135 | a postgres DSN opens with the host and port keywords, and any other driver's DSN opens with the MySQL user:password@tcp( form |
| Settings.DsnCarriesTls | internal/config/config.go:119-135 | a postgres DSN ends in sslmode=require exactly with TLS and in sslmode=disable exactly without it; a MySQL DSN ends in &tls=true exactly with TLS |
| Settings.RedisAddr | internal/config/config.go:141-159 | REDIS_URL wins when set; otherwise a host gives host:port and no host keeps the previous address |
| Settings.RedisTls | internal/config/config.go:141-166 | TLS once on stays on; with REDIS_URL set it is on exactly when it was or REDIS_TLS is "true"; without it, also when a Redis host is set and contains "upstash.io" |
| Settings.OrKeep | internal/config/config.go:160-176 | a non-empty value replaces the kept setting and an empty one keeps it |
| Settings.Apply | internal/config/config.go:93-182 | without a complete database source the driver and DSN are kept, with one they are the source's; PORT gives the address ":" followed by it; password, JWT secret and encryption key are replaced only by non-empty values |
| Settings.Override | internal/config/config.go:93-182 | the same laws stated on the environment: any of the four database variables missing keeps the database settings, and PORT sets the address |
| Settings.ApplyIdempotent | internal/config/config.go:93-182 | applying the same variables twice is applying them once |
| Settings.OverrideIdempotent | internal/config/config.go:93-182 | overriding twice from one environment is overriding once |
| Settings.EmptyEnvironmentKeepsBase | internal/config/config.go:93-182 | an empty environment keeps every setting |
| Settings.DbPortDefault | internal/config/config.go:103-105 | leaving every database port variable unset is the same as setting DB_PORT to 3306 |
| Settings.DriverDefault | internal/config/config.go:106-108 | leaving the driver unset is the same as setting DB_DRIVER to mysql |
| Settings.RedisPortDefault | internal/config/config.go:149-151 | leaving REDIS_PORT unset is the same as setting it to 6379 |
| Settings.RedisUrlWins | internal/config/config.go:141-145 | with REDIS_URL set, the redis host variable affects neither the address nor TLS |
| Settings.ReadAfterSet | internal/config/config.go:95-179 | setting one variable changes only the readings whose name lists contain it |
| Signature.AncientTimestampAccepted | internal/middleware/signature.go:66-73 | as written, with the clock at 0 the timestamp -2^63 passes the window check, because negating the wrapped difference leaves it negative |
| VersionService.RollbackMessageAsWrittenMisnames | internal/service/version.go:105 | as written, a rollback to version 10 is recorded as a rollback to ":" |

## Left out

- The Go SDK client (sdk/go/confighub/client.go): it is a network client made of HTTP requests, watch goroutines and sleeps. Its signing string (timestamp, method and path) differs from the server's canonical string; only the server side is modelled.
- HTTP plumbing: the handlers in internal/api other than public_config.go and helper.go only bind JSON, call a service and write the reply. The router, logger and recovery middleware, cmd/server and the database connection are also left out.
- internal/api/auth.go: JWT issuance and password hashing are library calls. The JWT parser appears only as the parameter of `Middleware.JwtAuth`.
- Cryptographic primitives: SHA-256, HMAC-SHA256, AES-GCM, base64, bcrypt and UUID generation are parameters. Their algorithms are not modelled; FNV-1a is modelled bit for bit.
- The JSON and YAML libraries are parameters. Their texts, error messages and float formatting are not modelled.
- Floating point: JSON numbers are reals. float64 rounding is not modelled. `GoInt.Int64OfFloat` gives the amd64 result, MinInt64, for a float beyond the int64 range, where Go leaves the result to the platform.
- Parser.ParseYAML: YAML's `.inf` and `.nan` decode to floats that json.MarshalIndent refuses (internal/service/parser.go:86-90). The YAML tree holds reals only, so that ErrParseYAML path is not modelled.
- Parser.YamlToJsonText: likewise the json.Marshal failure on a non-finite YAML float (internal/service/config.go:69-72) is not modelled.
- Codecs.StringsLawful and Codecs.EnvironmentsLawful: the string-list and environment-list round trips are taken as laws of encoding/json, without a witness codec.
- Encryption.EncryptRewrite: the nonce is modelled as a function of the plaintext, so equal strings in one document encrypt identically. Go reads a fresh nonce from crypto/rand for every Encrypt call (internal/service/encryption.go:57-60), so equal strings almost surely get different ciphertexts there. The contracts state only what holds for any nonce: sealing, decryption and the members left alone.
- Encryption.EncryptFields: it inherits that nonce model, so nothing is promised about ciphertexts differing between members or between calls.
- Store writes and bcrypt are assumed to succeed: a database insert or update, and a bcrypt hash, never fail in the model. So the paths on which Go returns a half-finished result are not modelled. One example is project creation, where a failed default-key insert returns the project without its key (internal/service/project.go:99-102). Another is the ignored errors of the default-environment inserts (internal/service/project.go:89-96).
- Concurrency: the notification hub's mutex and channels become a map of bounded queues, and every operation is one atomic step. The non-atomic check-then-insert of the gray-release Create and the two-step version insert plus pointer update are therefore atomic here.
- Wall-clock time and timeouts: the clock is an integer or text parameter. The long-poll wait is the event that ends it (a change, a timeout or a client that went away), not a timer.
- internal/service/audit.go: CSV and JSON export and the statistics are writer I/O over repository counts.
- The plain CRUD repositories internal/repository/project.go, key.go and audit.go are the `Registry` tables, without their SQL.
- Go map iteration order: schema "properties" are checked in ascending key order. YAML mappings are converted in document order, so when two keys print alike the later value wins. Go leaves both orders unspecified.
- Database collation: ORDER BY on text compares code points. ReleaseRepo.List and ReleaseRepo.ListByProject keep primary-key order among releases with one released_at, where SQL leaves the order of such ties unspecified. ReleaseRepo.GetByConfigAndEnv and ReleaseService.GetByEnv need no such choice: GORM's First adds ORDER BY the primary key.
- IPv6: whitelist addresses and prefixes are IPv4 dotted quads. IPv6 text never matches.
- Parser.ParseJSON: the decoder's own message appended to the error text is not modelled. The error kind is.
- Subscription filtering: the configuration ids a client subscribes with are accepted and ignored, as in the source. Every subscriber gets every change, and the Watch handler filters on the configuration id.

## Findings

| source | as written | input that shows it | evidently intended | confidence | as-written member | corrected member |
|---|---|---|---|---|---|---|
| internal/middleware/signature.go:66-73 | `abs(now-ts) > MaxTimeDiff` in int64; `abs` of MinInt64 stays negative | clock 0, timestamp -9223372036854775808: the difference wraps to MinInt64, its abs is negative, and the request passes the window | accept only timestamps within 300 seconds of the clock | not executed | Signature.AncientTimestampAccepted | Signature.FreshWindow |
| internal/service/version.go:105 | the rollback message appends `rune(toVersion+'0')` | rolling back to version 10 records "回滚到版本 :" | the decimal version number | not executed | VersionService.RollbackMessageAsWrittenMisnames | VersionService.RollbackMessage |
| internal/service/diff.go:202 | the array index label is `string(rune('0'+i))` | an item appended after ten items is reported at path "[:]" | the decimal index, "[10]" | not executed | JsonDiff.EleventhItemPath | JsonDiff.IndexLabel |
| internal/service/env_diff.go:202-212 | Sync assigns into the target map decoded from the target content | target content `null`, source `{"a": 1}`, keys ["a"]: assignment into a nil map panics | treat a nil target as an empty object | not executed | EnvDiff.AsWrittenPanicsOnNullTarget | EnvDiff.SyncData |
| internal/api/public_config.go:182-184 | the file type defaults to "json" after binding, but the request type marks it required (internal/service/config.go:45) | a create request without a file type is refused with 400 before the default is reached | a missing file type means JSON | not executed | PublicConfig.FileTypeDefaultUnreachable | PublicConfig.FileTypeDefaultsToJson |
