/** The authentication middleware: who the caller is (the auth context) and
    whether the request goes on. The JWT library, the clock and the key
    table are parameters. */
module Middleware {
  import opened Wrappers
  import opened Records
  import opened Text
  import Seqs
  import Codecs
  import Access
  import Registry
  import Errors
  import GoInt
  import JsonValue

  /** middleware.AuthContext */
  datatype AuthContext = AuthContext(
    userId: int,
    username: string,
    accessKeyId: int,
    projectId: int,
    permissions: Permissions)

  /** A handler either aborts with a status or lets the chain go on with
      the auth context it installed. */
  datatype Verdict = Abort(status: int) | Continue(ctx: AuthContext)

  const Unauthorized := 401
  const Forbidden := 403
  /** The status Recovery answers a panic with. */
  const InternalError := 500

  /** The claims the services read from a valid token. */
  datatype Claims = Claims(userId: int, username: string)

  /** jwt.Parse with the server's secret: the claims of a valid token
      (jwt.MapClaims, each member decoded as JSON), None for any other. */
  type TokenParser = string -> Option<map<string, JsonValue.Json>>

  /** `int64(claims["user_id"].(float64))` and `claims["username"].(string)`:
      None where either type assertion panics, because the claim is missing
      or holds another JSON type. */
  function ReadClaims(claims: map<string, JsonValue.Json>): (r: Option<Claims>)
    ensures r.Some? <==> ("user_id" in claims && claims["user_id"].Num?
                          && "username" in claims && claims["username"].Str?)
    ensures r.Some? ==> r.value.username == claims["username"].s
    ensures r.Some? ==> r.value.userId == GoInt.Int64OfFloat(claims["user_id"].n)
  {
    if "user_id" !in claims || !claims["user_id"].Num? then None
    else if "username" !in claims || !claims["username"].Str? then None
    else Some(Claims(GoInt.Int64OfFloat(claims["user_id"].n), claims["username"].s))
  }

  /** Read-only access, installed for anonymous callers. */
  const ReadOnly := NoPermissions.(read := true)

  /** The text before the first space and the rest, when there is a space
      (strings.SplitN(s, " ", 2) with two parts). */
  function SplitFirstSpace(s: string): (r: Option<(string, string)>)
    ensures r.Some? ==> s == r.value.0 + " " + r.value.1 && ' ' !in r.value.0
    ensures r.None? <==> ' ' !in s
  {
    if |s| == 0 then None
    else if s[0] == ' ' then Some(("", s[1..]))
    else match SplitFirstSpace(s[1..])
      case None => None
      case Some((a, b)) => Some(([s[0]] + a, b))
  }

  /** The claims a login token carries, a whole user id and a name, are
      read back as issued; a token without a name makes the middleware panic. */
  lemma ClaimsReadBack(id: int, name: string, other: map<string, JsonValue.Json>)
    requires GoInt.IsInt64(id)
    ensures ReadClaims(other["user_id" := JsonValue.Num(id as real)]["username" := JsonValue.Str(name)])
      == Some(Claims(id, name))
    ensures "username" !in other ==> ReadClaims(other["user_id" := JsonValue.Num(id as real)]).None?
  {
    GoInt.Int64OfWhole(id, 0.0);
  }

  /** JWTAuth: a "Bearer <token>" header whose token is valid gives a user
      context with every permission; a valid token whose user claims have
      the wrong types panics, and Recovery answers 500. */
  function JwtAuth(parse: TokenParser, header: string): (v: Verdict)
    ensures v.Abort? ==> v.status in {Unauthorized, InternalError}
    ensures v.Abort? && v.status == Unauthorized <==>
      !(SplitFirstSpace(header).Some? && SplitFirstSpace(header).value.0 == "Bearer"
        && parse(SplitFirstSpace(header).value.1).Some?)
    ensures v.Continue? <==> (SplitFirstSpace(header).Some? && SplitFirstSpace(header).value.0 == "Bearer"
                              && parse(SplitFirstSpace(header).value.1).Some?
                              && ReadClaims(parse(SplitFirstSpace(header).value.1).value).Some?)
    ensures v.Continue? ==>
      var claims := ReadClaims(parse(SplitFirstSpace(header).value.1).value).value;
      v.ctx == AuthContext(claims.userId, claims.username, 0, 0, AllPermissions)
  {
    if header == "" then Abort(Unauthorized)
    else match SplitFirstSpace(header)
      case None => Abort(Unauthorized)
      case Some((scheme, token)) =>
        if scheme != "Bearer" then Abort(Unauthorized)
        else match parse(token)
          case None => Abort(Unauthorized)
          case Some(mapClaims) =>
            match ReadClaims(mapClaims)
            case None => Abort(InternalError)
            case Some(claims) => Continue(AuthContext(claims.userId, claims.username, 0, 0, AllPermissions))
  }

  /** The access key of a request: the X-Access-Key header, else the
      access_key query parameter. */
  function RequestAccessKey(header: string, query: string): (k: string)
    ensures k == "" <==> header == "" && query == ""
    ensures header != "" ==> k == header
  {
    if header != "" then header else query
  }

  /** `access_key = ? AND is_active = true`, first by id. */
  function ActiveKey(keys: seq<ProjectKey>, accessKey: string): (r: Option<ProjectKey>)
    ensures r.Some? ==> r.value in keys && r.value.accessKey == accessKey && r.value.isActive
    ensures r.None? <==> forall i :: 0 <= i < |keys| ==> !(keys[i].accessKey == accessKey && keys[i].isActive)
  {
    Seqs.First(keys, (k: ProjectKey) => k.accessKey == accessKey && k.isActive)
  }

  /** AccessKeyAuth: a missing, unknown, inactive or expired key is 401; a
      restricting whitelist that no pattern matches is 403; otherwise the
      key's context, with whatever flags Unmarshal set (its error ignored). */
  function AccessKeyAuth(codecs: Codecs.Codecs, keys: seq<ProjectKey>, accessKey: string, clientIP: string, now: int)
    : (v: Verdict)
    ensures accessKey == "" ==> v == Abort(Unauthorized)
    ensures v.Abort? ==> v.status in {Unauthorized, Forbidden}
    ensures v.Continue? ==> ActiveKey(keys, accessKey).Some?
    ensures v.Continue? ==> var key := ActiveKey(keys, accessKey).value;
      v.ctx == AuthContext(0, "", key.id, key.projectId, Access.GetPermissions(codecs, key))
  {
    if accessKey == "" then Abort(Unauthorized)
    else match ActiveKey(keys, accessKey)
      case None => Abort(Unauthorized)
      case Some(key) =>
        if Access.Expired(key, now) then Abort(Unauthorized)
        else if Access.CheckIPWhitelist(codecs, key, clientIP).Err? then Abort(Forbidden)
        else Continue(AuthContext(0, "", key.id, key.projectId, Access.GetPermissions(codecs, key)))
  }

  /** Access keys are unique in the key table. */
  predicate UniqueAccessKeys(keys: seq<ProjectKey>) {
    forall i, j :: 0 <= i < |keys| && 0 <= j < |keys| && keys[i].accessKey == keys[j].accessKey ==> i == j
  }

  /** With unique access keys, the middleware and the access service agree
      (checking no particular permission): the middleware lets a request
      through exactly when ValidateAccess grants the key, answers 403 exactly
      for the whitelist refusal, and 401 for every other refusal. */
  lemma AccessKeyAuthAgreesWithService(codecs: Codecs.Codecs, keys: seq<ProjectKey>, accessKey: string,
                                       clientIP: string, now: int)
    requires UniqueAccessKeys(keys) && accessKey != ""
    ensures var v := AccessKeyAuth(codecs, keys, accessKey, clientIP, now);
      var r := Access.ValidateAccess(codecs, keys, accessKey, clientIP, "", now);
      && (v.Continue? <==> r.Ok?)
      && (v.Continue? ==> v.ctx.accessKeyId == r.value.id && v.ctx.projectId == r.value.projectId)
      && (v == Abort(Forbidden) <==> r == Err(Errors.IPNotAllowed))
  {
    var any := Registry.GetKeyByAccessKey(keys, accessKey);
    var active := ActiveKey(keys, accessKey);
    if any.Some? {
      var i :| 0 <= i < |keys| && keys[i] == any.value;
      if any.value.isActive {
        assert keys[i].accessKey == accessKey && keys[i].isActive;
        var j :| 0 <= j < |keys| && keys[j] == active.value;
        assert i == j;
      } else {
        forall j | 0 <= j < |keys| ensures !(keys[j].accessKey == accessKey && keys[j].isActive) {
          if keys[j].accessKey == accessKey { assert i == j; }
        }
      }
    } else {
      assert active.None?;
    }
  }

  /** OptionalAuth: a Bearer header goes through JWTAuth, else an access key
      through AccessKeyAuth, else the caller is anonymous and may only read. */
  function OptionalAuth(parse: TokenParser, codecs: Codecs.Codecs, keys: seq<ProjectKey>, authorization: string,
                        headerKey: string, queryKey: string, clientIP: string, now: int): (v: Verdict)
    ensures HasPrefix(authorization, "Bearer ") ==> v == JwtAuth(parse, authorization)
    ensures !HasPrefix(authorization, "Bearer ") && RequestAccessKey(headerKey, queryKey) != "" ==>
      v == AccessKeyAuth(codecs, keys, RequestAccessKey(headerKey, queryKey), clientIP, now)
    ensures !HasPrefix(authorization, "Bearer ") && headerKey == "" && queryKey == "" ==>
      v == Continue(AuthContext(0, "", 0, 0, ReadOnly))
  {
    if authorization != "" && HasPrefix(authorization, "Bearer ") then JwtAuth(parse, authorization)
    else
      var accessKey := RequestAccessKey(headerKey, queryKey);
      if accessKey != "" then AccessKeyAuth(codecs, keys, accessKey, clientIP, now)
      else Continue(AuthContext(0, "", 0, 0, ReadOnly))
  }

  /** An anonymous caller may read and do nothing else. */
  lemma AnonymousReadsOnly(parse: TokenParser, codecs: Codecs.Codecs, keys: seq<ProjectKey>, authorization: string,
                           clientIP: string, now: int, permission: string)
    requires !HasPrefix(authorization, "Bearer ")
    ensures var v := OptionalAuth(parse, codecs, keys, authorization, "", "", clientIP, now);
      v.Continue? && (RequirePermission(Some(v.ctx), permission) == Pass <==> permission == "read")
  {
  }

  /** What RequirePermission decides. */
  datatype Decision = Pass | Refuse(status: int)

  /** RequirePermission: no context is 401; otherwise the named flag
      decides, and a name that is not a flag is 403. */
  function RequirePermission(ctx: Option<AuthContext>, permission: string): (d: Decision)
    ensures ctx.None? ==> d == Refuse(Unauthorized)
    ensures ctx.Some? ==> (d == Pass <==> Flag(ctx.value.permissions, permission) == Some(true))
    ensures ctx.Some? && d.Refuse? ==> d.status == Forbidden
  {
    match ctx
    case None => Refuse(Unauthorized)
    case Some(c) => if Flag(c.permissions, permission) == Some(true) then Pass else Refuse(Forbidden)
  }

  /** A token holder passes every permission check, and no one passes a
      check for a name that is not a permission. */
  lemma TokenHoldersPassEverything(parse: TokenParser, header: string, permission: string)
    requires JwtAuth(parse, header).Continue?
    ensures RequirePermission(Some(JwtAuth(parse, header).ctx), permission) == Pass <==> permission in PermissionNames
  {
    if permission in PermissionNames {
      FlagConstants(permission);
    }
  }
}
