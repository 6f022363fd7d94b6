/** The access service: whether an API key may be used from an address for
    an operation. The clock is the parameter `now` (seconds); key expiry is
    "ExpiresAt before now". */
module Access {
  import opened Wrappers
  import opened Records
  import opened Errors
  import Codecs
  import IPv4
  import Registry

  /** key.ExpiresAt.Before(now) */
  predicate Expired(key: ProjectKey, now: int) {
    key.expiresAt.Some? && key.expiresAt.value < now
  }

  /** IsKeyValid */
  function IsKeyValid(key: ProjectKey, now: int): (b: bool)
    ensures b <==> key.isActive && (key.expiresAt.None? || now <= key.expiresAt.value)
  {
    if !key.isActive then false
    else if Expired(key, now) then false
    else true
  }

  /** The whitelist entries that restrict access: none for "", "[]", text
      that does not decode as a list of strings, or an empty list. */
  function Whitelist(codecs: Codecs.Codecs, text: string): (r: Option<seq<string>>)
    ensures r.Some? ==> |r.value| > 0 && codecs.decodeStrings(text) == r
    ensures r.None? <==> (text == "" || text == "[]" || codecs.decodeStrings(text).None?
                          || codecs.decodeStrings(text) == Some([]))
  {
    if text == "" || text == "[]" then None
    else match codecs.decodeStrings(text)
      case None => None
      case Some(list) => if |list| == 0 then None else Some(list)
  }

  /** Whether some pattern admits the client address, in list order. */
  function AnyMatch(clientIP: string, patterns: seq<string>): (b: bool)
    ensures b <==> exists i :: 0 <= i < |patterns| && IPv4.MatchIP(clientIP, patterns[i])
  {
    if |patterns| == 0 then false
    else if IPv4.MatchIP(clientIP, patterns[0]) then
      assert IPv4.MatchIP(clientIP, patterns[0]);
      true
    else
      var rest := AnyMatch(clientIP, patterns[1..]);
      assert forall i :: 1 <= i < |patterns| ==> patterns[i] == patterns[1..][i - 1];
      rest
  }

  /** checkIPWhitelist */
  function CheckIPWhitelist(codecs: Codecs.Codecs, key: ProjectKey, clientIP: string): (r: Result<(), Error>)
    ensures r.Err? ==> r.error == IPNotAllowed
    ensures r.Err? <==> (Whitelist(codecs, key.ipWhitelist).Some?
      && forall i :: 0 <= i < |Whitelist(codecs, key.ipWhitelist).value| ==>
           !IPv4.MatchIP(clientIP, Whitelist(codecs, key.ipWhitelist).value[i]))
  {
    match Whitelist(codecs, key.ipWhitelist)
    case None => Ok(())
    case Some(list) => if AnyMatch(clientIP, list) then Ok(()) else Err(IPNotAllowed)
  }

  /** json.Unmarshal of the stored permissions into a zero value: an empty
      text is not decoded at all. */
  function DecodePermissions(codecs: Codecs.Codecs, text: string): (r: Codecs.Decoded<Permissions>)
    ensures text == "" ==> r == Codecs.Decoded(NoPermissions, false)
    ensures text != "" ==> r == codecs.decodePermissions(text)
  {
    if text == "" then Codecs.Decoded(NoPermissions, false) else codecs.decodePermissions(text)
  }

  /** checkPermission: denied when Unmarshal reports an error and on any
      name that is not one of the six flags. */
  function CheckPermission(codecs: Codecs.Codecs, key: ProjectKey, permission: string): (r: Result<(), Error>)
    ensures r.Err? ==> r.error == PermissionDenied
    ensures r.Ok? <==> (!DecodePermissions(codecs, key.permissions).failed
      && Flag(DecodePermissions(codecs, key.permissions).value, permission) == Some(true))
  {
    var decoded := DecodePermissions(codecs, key.permissions);
    if decoded.failed then Err(PermissionDenied)
    else if Flag(decoded.value, permission) == Some(true) then Ok(())
    else Err(PermissionDenied)
  }

  /** GetPermissions: whatever Unmarshal set, its error ignored, so the
      members decoded around a mistyped one still count. */
  function GetPermissions(codecs: Codecs.Codecs, key: ProjectKey): (p: Permissions)
    ensures key.permissions == "" ==> p == NoPermissions
    ensures key.permissions != "" ==> p == codecs.decodePermissions(key.permissions).value
  {
    DecodePermissions(codecs, key.permissions).value
  }

  /** HasPermission */
  function HasPermission(codecs: Codecs.Codecs, key: ProjectKey, permission: string): (b: bool)
    ensures permission !in PermissionNames ==> !b
    ensures b <==> Flag(GetPermissions(codecs, key), permission) == Some(true)
  {
    match Flag(GetPermissions(codecs, key), permission)
    case None => false
    case Some(allowed) => allowed
  }

  /** checkPermission never grants what HasPermission refuses; the two agree
      wherever Unmarshal reports no error, and where it does checkPermission
      refuses everything while HasPermission still reads the members that
      were decoded. */
  lemma HasPermissionAgrees(codecs: Codecs.Codecs, key: ProjectKey, permission: string)
    ensures CheckPermission(codecs, key, permission).Ok? ==> HasPermission(codecs, key, permission)
    ensures !DecodePermissions(codecs, key.permissions).failed ==>
      (HasPermission(codecs, key, permission) <==> CheckPermission(codecs, key, permission).Ok?)
    ensures DecodePermissions(codecs, key.permissions).failed ==> CheckPermission(codecs, key, permission).Err?
  {
  }

  /** Permissions stored by their own encoding are read back as stored. */
  lemma StoredPermissionsRead(codecs: Codecs.Codecs, key: ProjectKey, perms: Permissions, permission: string)
    requires Codecs.PermissionsLawful(codecs)
    requires key.permissions == codecs.encodePermissions(perms)
    ensures HasPermission(codecs, key, permission) <==> Flag(perms, permission) == Some(true)
    ensures CheckPermission(codecs, key, permission).Ok? <==> Flag(perms, permission) == Some(true)
  {
    assert codecs.decodePermissions(codecs.encodePermissions(perms)) == Codecs.Decoded(perms, false);
    assert key.permissions != "";
  }

  /** ValidateAccess: the first failing check decides the error. */
  function ValidateAccess(codecs: Codecs.Codecs, keys: seq<ProjectKey>, accessKey: string, clientIP: string,
                          requiredPermission: string, now: int): (r: Result<ProjectKey, Error>)
    ensures Registry.GetKeyByAccessKey(keys, accessKey).None? ==> r == Err(AccessDenied)
    ensures r.Ok? ==> Registry.GetKeyByAccessKey(keys, accessKey) == Some(r.value)
  {
    match Registry.GetKeyByAccessKey(keys, accessKey)
    case None => Err(AccessDenied)
    case Some(key) =>
      if !key.isActive then Err(KeyInactive)
      else if Expired(key, now) then Err(KeyExpired)
      else if CheckIPWhitelist(codecs, key, clientIP).Err? then Err(IPNotAllowed)
      else if requiredPermission != "" && CheckPermission(codecs, key, requiredPermission).Err? then Err(PermissionDenied)
      else Ok(key)
  }

  /** The order of the checks: for a key that exists, each error is reported
      exactly when every earlier check passed and its own check failed. */
  lemma ValidateAccessOrder(codecs: Codecs.Codecs, keys: seq<ProjectKey>, accessKey: string, clientIP: string,
                            requiredPermission: string, now: int)
    requires Registry.GetKeyByAccessKey(keys, accessKey).Some?
    ensures var key := Registry.GetKeyByAccessKey(keys, accessKey).value;
      var r := ValidateAccess(codecs, keys, accessKey, clientIP, requiredPermission, now);
      && (r == Err(KeyInactive) <==> !key.isActive)
      && (r == Err(KeyExpired) <==> key.isActive && Expired(key, now))
      && (r == Err(IPNotAllowed) <==> IsKeyValid(key, now) && CheckIPWhitelist(codecs, key, clientIP).Err?)
      && (r == Err(PermissionDenied) <==> (IsKeyValid(key, now) && CheckIPWhitelist(codecs, key, clientIP).Ok?
                                           && requiredPermission != "" && !HasCheckedPermission(codecs, key, requiredPermission)))
      && (r.Ok? <==> (IsKeyValid(key, now) && CheckIPWhitelist(codecs, key, clientIP).Ok?
                      && (requiredPermission == "" || HasCheckedPermission(codecs, key, requiredPermission))))
      && r != Err(AccessDenied)
  {
  }

  /** The permission check of ValidateAccess as a predicate. */
  predicate HasCheckedPermission(codecs: Codecs.Codecs, key: ProjectKey, permission: string) {
    CheckPermission(codecs, key, permission).Ok?
  }

  /** An empty required permission is no requirement: any key that passes
      the other checks is granted, whatever its flags. */
  lemma EmptyPermissionSkipsCheck(codecs: Codecs.Codecs, keys: seq<ProjectKey>, accessKey: string, clientIP: string, now: int)
    requires Registry.GetKeyByAccessKey(keys, accessKey).Some?
    ensures var key := Registry.GetKeyByAccessKey(keys, accessKey).value;
      (ValidateAccess(codecs, keys, accessKey, clientIP, "", now).Ok? <==>
         IsKeyValid(key, now) && CheckIPWhitelist(codecs, key, clientIP).Ok?)
  {
  }

  /** A key with no restricting whitelist is usable from every address. */
  lemma OpenWhitelist(codecs: Codecs.Codecs, key: ProjectKey, clientIP: string, otherIP: string)
    requires Whitelist(codecs, key.ipWhitelist).None?
    ensures CheckIPWhitelist(codecs, key, clientIP) == CheckIPWhitelist(codecs, key, otherIP) == Ok(())
  {
  }

  /** An address listed verbatim is always admitted. */
  lemma ListedAddressAdmitted(codecs: Codecs.Codecs, key: ProjectKey, clientIP: string)
    requires Whitelist(codecs, key.ipWhitelist).Some?
    requires clientIP in Whitelist(codecs, key.ipWhitelist).value
    ensures CheckIPWhitelist(codecs, key, clientIP).Ok?
  {
    var list := Whitelist(codecs, key.ipWhitelist).value;
    var i :| 0 <= i < |list| && list[i] == clientIP;
    assert IPv4.MatchIP(clientIP, list[i]);
  }

  /** ValidateProjectAccess */
  function ValidateProjectAccess(key: ProjectKey, projectId: int): (r: Result<(), Error>)
    ensures r.Ok? <==> key.projectId == projectId
    ensures r.Err? ==> r.error == AccessDenied
  {
    if key.projectId != projectId then Err(AccessDenied) else Ok(())
  }
}
