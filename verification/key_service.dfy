/** The API key service: issuing, editing, re-issuing and revoking a
    project's keys. The UUID generator and bcrypt are parameters: a `uuid` is
    the 36-character text uuid.New().String() returns, and `hash` stands for
    bcrypt.GenerateFromPassword with its salt. */
module KeyService {
  import opened Wrappers
  import opened Records
  import opened Errors
  import opened Text
  import Codecs
  import Registry
  import Access
  import Middleware

  /** The length of a UUID's text form. */
  const UuidLength := 36

  /** bcrypt.GenerateFromPassword, salt and cost folded in. */
  type Hasher = string -> string

  /** An access key: "ak_" and the first 24 characters of a UUID. */
  function AccessKeyOf(uuid: string): (ak: string)
    requires |uuid| == UuidLength
    ensures |ak| == 27 && HasPrefix(ak, "ak_")
  {
    "ak_" + uuid[..24]
  }

  /** A secret key: "sk_" and a whole UUID. */
  function SecretKeyOf(uuid: string): (sk: string)
    requires |uuid| == UuidLength
    ensures |sk| == 39 && HasPrefix(sk, "sk_")
  {
    "sk_" + uuid
  }

  /** Two UUIDs give the same access key exactly when they share their first
      24 characters; an access key is never a secret key. */
  lemma AccessKeysByPrefix(u: string, v: string)
    requires |u| == UuidLength && |v| == UuidLength
    ensures AccessKeyOf(u) == AccessKeyOf(v) <==> u[..24] == v[..24]
    ensures AccessKeyOf(u) != SecretKeyOf(v)
  {
    if AccessKeyOf(u) == AccessKeyOf(v) {
      assert AccessKeyOf(u)[3..] == u[..24];
      assert AccessKeyOf(v)[3..] == v[..24];
    }
  }

  /** The flags a key gets when the request names none: read only. */
  const DefaultFlags: map<string, bool> :=
    map["read" := true, "write" := false, "delete" := false, "release" := false, "admin" := false]

  /** CreateKeyRequest; `permissions` is absent when the request has none. */
  datatype CreateRequest = CreateRequest(
    name: string,
    permissions: Option<map<string, bool>>,
    ipWhitelist: seq<string>,
    expiresAt: Option<int>)

  /** A stored key together with the table after the write and the plaintext
      secret handed back once. */
  datatype Issued = Issued(reg: Registry.Registry, key: ProjectKey, secret: string)

  /** The stored whitelist text: empty for an empty list. */
  function WhitelistText(codecs: Codecs.Codecs, list: seq<string>): (text: string)
    ensures list == [] ==> text == ""
    ensures list != [] ==> text == codecs.encodeStrings(list)
  {
    if |list| > 0 then codecs.encodeStrings(list) else ""
  }

  /** Create: a new active key of the project with a fresh key pair. */
  function Create(reg: Registry.Registry, codecs: Codecs.Codecs, hash: Hasher, projectId: int,
                  req: CreateRequest, uuid1: string, uuid2: string): (r: Issued)
    requires |uuid1| == UuidLength && |uuid2| == UuidLength
    ensures r.reg.keys == reg.keys + [r.key] && r.reg.nextKeyId == reg.nextKeyId + 1
    ensures r.reg.projects == reg.projects && r.reg.environments == reg.environments
    ensures r.key.id == reg.nextKeyId && r.key.projectId == projectId && r.key.name == req.name
    ensures r.key.accessKey == AccessKeyOf(uuid1) && r.secret == SecretKeyOf(uuid2)
    ensures r.key.secretKeyHash == hash(r.secret)
    ensures r.key.isActive && r.key.expiresAt == req.expiresAt
  {
    var flags := req.permissions.GetOr(DefaultFlags);
    var secret := SecretKeyOf(uuid2);
    var row := ProjectKey(0, projectId, req.name, AccessKeyOf(uuid1), hash(secret),
                          codecs.encodeFlags(flags), WhitelistText(codecs, req.ipWhitelist), req.expiresAt, true);
    var (reg', key) := Registry.InsertKey(reg, row);
    Issued(reg', key, secret)
  }

  /** The flags of a new key read back as requested, or read-only when the
      request named none. */
  lemma CreatedKeyPermissions(reg: Registry.Registry, codecs: Codecs.Codecs, hash: Hasher, projectId: int,
                              req: CreateRequest, uuid1: string, uuid2: string)
    requires Codecs.PermissionsLawful(codecs)
    requires |uuid1| == UuidLength && |uuid2| == UuidLength
    ensures var key := Create(reg, codecs, hash, projectId, req, uuid1, uuid2).key;
      Access.DecodePermissions(codecs, key.permissions)
        == Codecs.Decoded(Codecs.FromMap(req.permissions.GetOr(DefaultFlags)), false)
    ensures req.permissions.None? ==>
      Access.GetPermissions(codecs, Create(reg, codecs, hash, projectId, req, uuid1, uuid2).key) == Middleware.ReadOnly
  {
    var flags := req.permissions.GetOr(DefaultFlags);
    assert codecs.decodePermissions(codecs.encodeFlags(flags)) == Codecs.Decoded(Codecs.FromMap(flags), false);
    assert codecs.encodeFlags(flags) != "";
    if req.permissions.None? {
      forall name | name in PermissionNames
        ensures Flag(Codecs.FromMap(DefaultFlags), name) == Flag(Middleware.ReadOnly, name)
      {
        Codecs.FromMapExactNames(DefaultFlags, name);
      }
      ReadOnlyByFlags(Codecs.FromMap(DefaultFlags));
    }
  }

  /** Permissions that agree with ReadOnly on every flag are ReadOnly. */
  lemma ReadOnlyByFlags(p: Permissions)
    requires forall name | name in PermissionNames :: Flag(p, name) == Flag(Middleware.ReadOnly, name)
    ensures p == Middleware.ReadOnly
  {
    assert Flag(p, "read") == Some(true) && Flag(p, "write") == Some(false) && Flag(p, "delete") == Some(false);
    assert Flag(p, "release") == Some(false) && Flag(p, "admin") == Some(false) && Flag(p, "decrypt") == Some(false);
  }

  /** A new key's whitelist restricts it to exactly the listed patterns, and
      an empty list leaves it open. */
  lemma CreatedKeyWhitelist(reg: Registry.Registry, codecs: Codecs.Codecs, hash: Hasher, projectId: int,
                            req: CreateRequest, uuid1: string, uuid2: string)
    requires Codecs.StringsLawful(codecs)
    requires |uuid1| == UuidLength && |uuid2| == UuidLength
    ensures var key := Create(reg, codecs, hash, projectId, req, uuid1, uuid2).key;
      Access.Whitelist(codecs, key.ipWhitelist) == (if req.ipWhitelist == [] then None else Some(req.ipWhitelist))
  {
    if req.ipWhitelist != [] {
      var text := codecs.encodeStrings(req.ipWhitelist);
      assert codecs.decodeStrings(text) == Some(req.ipWhitelist);
      assert codecs.decodeStrings(codecs.encodeStrings([])) == Some([]);
      assert text != "";
    }
  }

  /** A key just issued under a fresh access key is granted by the access
      service exactly as its request says: refused from an address its
      whitelist does not admit, refused a permission its flags do not set,
      and granted otherwise. */
  lemma CreatedKeyGrants(reg: Registry.Registry, codecs: Codecs.Codecs, hash: Hasher, projectId: int,
                         req: CreateRequest, uuid1: string, uuid2: string,
                         clientIP: string, permission: string, now: int)
    requires Codecs.PermissionsLawful(codecs) && Codecs.StringsLawful(codecs)
    requires |uuid1| == UuidLength && |uuid2| == UuidLength
    requires forall i :: 0 <= i < |reg.keys| ==> reg.keys[i].accessKey != AccessKeyOf(uuid1)
    requires req.expiresAt.None? || now <= req.expiresAt.value
    ensures var r := Create(reg, codecs, hash, projectId, req, uuid1, uuid2);
      var flags := Codecs.FromMap(req.permissions.GetOr(DefaultFlags));
      Access.ValidateAccess(codecs, r.reg.keys, r.key.accessKey, clientIP, permission, now)
        == if req.ipWhitelist != [] && !Access.AnyMatch(clientIP, req.ipWhitelist) then Err(IPNotAllowed)
           else if permission != "" && Flag(flags, permission) != Some(true) then Err(PermissionDenied)
           else Ok(r.key)
  {
    var r := Create(reg, codecs, hash, projectId, req, uuid1, uuid2);
    var found := Registry.GetKeyByAccessKey(r.reg.keys, r.key.accessKey);
    assert r.reg.keys[|reg.keys|] == r.key;
    assert found.Some?;
    var j :| 0 <= j < |r.reg.keys| && r.reg.keys[j] == found.value;
    assert j == |reg.keys|;
    CreatedKeyPermissions(reg, codecs, hash, projectId, req, uuid1, uuid2);
    CreatedKeyWhitelist(reg, codecs, hash, projectId, req, uuid1, uuid2);
  }

  /** Issuing a key keeps the tables well formed. */
  lemma CreateKeepsGood(reg: Registry.Registry, codecs: Codecs.Codecs, hash: Hasher, projectId: int,
                        req: CreateRequest, uuid1: string, uuid2: string)
    requires Registry.Good(reg)
    requires |uuid1| == UuidLength && |uuid2| == UuidLength
    ensures Registry.Good(Create(reg, codecs, hash, projectId, req, uuid1, uuid2).reg)
  {
  }

  /** UpdateKeyRequest: an empty name and absent members change nothing. */
  datatype UpdateRequest = UpdateRequest(
    name: string,
    permissions: Option<map<string, bool>>,
    ipWhitelist: Option<seq<string>>,
    expiresAt: Option<int>,
    isActive: Option<bool>)

  const NoChanges := UpdateRequest("", None, None, None, None)

  /** The key with the request's changes applied. A whitelist that is
      present is stored encoded even when it is empty. */
  function Merge(codecs: Codecs.Codecs, key: ProjectKey, req: UpdateRequest): (k: ProjectKey)
    ensures k.id == key.id && k.projectId == key.projectId
    ensures k.accessKey == key.accessKey && k.secretKeyHash == key.secretKeyHash
    ensures req.name == "" ==> k.name == key.name
    ensures req.permissions.None? ==> k.permissions == key.permissions
    ensures req.ipWhitelist.None? ==> k.ipWhitelist == key.ipWhitelist
    ensures req.expiresAt.None? ==> k.expiresAt == key.expiresAt
    ensures req.isActive.None? ==> k.isActive == key.isActive
  {
    key.(name := if req.name != "" then req.name else key.name,
         permissions := if req.permissions.Some? then codecs.encodeFlags(req.permissions.value) else key.permissions,
         ipWhitelist := if req.ipWhitelist.Some? then codecs.encodeStrings(req.ipWhitelist.value) else key.ipWhitelist,
         expiresAt := if req.expiresAt.Some? then req.expiresAt else key.expiresAt,
         isActive := if req.isActive.Some? then req.isActive.value else key.isActive)
  }

  /** Applying the same request twice is applying it once, and the empty
      request changes nothing. */
  lemma MergeIdempotent(codecs: Codecs.Codecs, key: ProjectKey, req: UpdateRequest)
    ensures Merge(codecs, Merge(codecs, key, req), req) == Merge(codecs, key, req)
    ensures Merge(codecs, key, NoChanges) == key
  {
  }

  /** Update: an unknown id is KeyNotFound; otherwise the key's row is saved
      with the changes applied. */
  function Update(reg: Registry.Registry, codecs: Codecs.Codecs, id: int, req: UpdateRequest)
    : (r: Result<Registry.Registry, Error>)
    ensures r.Err? <==> Registry.GetKey(reg.keys, id).None?
    ensures r.Err? ==> r.error == KeyNotFound
    ensures r.Ok? ==> r.value.projects == reg.projects && r.value.environments == reg.environments
    ensures r.Ok? ==> |r.value.keys| == |reg.keys|
  {
    match Registry.GetKey(reg.keys, id)
    case None => Err(KeyNotFound)
    case Some(key) => Ok(reg.(keys := Registry.UpdateKey(reg.keys, Merge(codecs, key, req))))
  }

  /** The row of a key in a well-formed table. */
  lemma KeyIndex(reg: Registry.Registry, id: int) returns (k: nat)
    requires Registry.GetKey(reg.keys, id).Some?
    ensures k < |reg.keys| && reg.keys[k] == Registry.GetKey(reg.keys, id).value && reg.keys[k].id == id
  {
    var key := Registry.GetKey(reg.keys, id).value;
    k :| 0 <= k < |reg.keys| && reg.keys[k] == key;
  }

  /** In a well-formed table an update rewrites the key's own row and no
      other, keeps the table well formed, and the empty request leaves the
      table as it was. */
  lemma UpdateOnlyTarget(reg: Registry.Registry, codecs: Codecs.Codecs, id: int, req: UpdateRequest)
    requires Registry.Good(reg) && Registry.GetKey(reg.keys, id).Some?
    ensures var r := Update(reg, codecs, id, req);
      var key := Registry.GetKey(reg.keys, id).value;
      && r.Ok?
      && (exists k :: 0 <= k < |reg.keys| && reg.keys[k] == key && r.value.keys == reg.keys[k := Merge(codecs, key, req)])
      && Registry.Good(r.value)
    ensures Update(reg, codecs, id, NoChanges) == Ok(reg)
  {
    var key := Registry.GetKey(reg.keys, id).value;
    var k := KeyIndex(reg, id);
    Registry.UpdateKeyAt(reg, k, Merge(codecs, key, req));
    Registry.UpdateKeyAt(reg, k, Merge(codecs, key, NoChanges));
    MergeIdempotent(codecs, key, req);
    assert reg.keys[k := key] == reg.keys;
  }

  /** The key of an access key in a table whose access keys are unique. */
  lemma UniqueLookup(keys: seq<ProjectKey>, k: nat)
    requires Middleware.UniqueAccessKeys(keys) && k < |keys|
    ensures Registry.GetKeyByAccessKey(keys, keys[k].accessKey) == Some(keys[k])
  {
    var found := Registry.GetKeyByAccessKey(keys, keys[k].accessKey);
    var j :| 0 <= j < |keys| && keys[j] == found.value;
  }

  /** Clearing a key's whitelist with an empty list opens it to every
      address. */
  lemma ClearedWhitelistOpens(codecs: Codecs.Codecs, key: ProjectKey, req: UpdateRequest, clientIP: string)
    requires Codecs.StringsLawful(codecs) && req.ipWhitelist == Some([])
    ensures Access.Whitelist(codecs, Merge(codecs, key, req).ipWhitelist).None?
    ensures Access.CheckIPWhitelist(codecs, Merge(codecs, key, req), clientIP) == Ok(())
  {
  }

  /** Deactivating a key makes the access service refuse it as inactive,
      whatever else the request changes. */
  lemma DeactivatedKeyRefused(reg: Registry.Registry, codecs: Codecs.Codecs, id: int, req: UpdateRequest,
                              clientIP: string, permission: string, now: int)
    requires Registry.Good(reg) && Middleware.UniqueAccessKeys(reg.keys)
    requires Registry.GetKey(reg.keys, id).Some? && req.isActive == Some(false)
    ensures var key := Registry.GetKey(reg.keys, id).value;
      var keys := Update(reg, codecs, id, req).value.keys;
      Access.ValidateAccess(codecs, keys, key.accessKey, clientIP, permission, now) == Err(KeyInactive)
  {
    var key := Registry.GetKey(reg.keys, id).value;
    var k := KeyIndex(reg, id);
    var merged := Merge(codecs, key, req);
    Registry.UpdateKeyAt(reg, k, merged);
    var keys := reg.keys[k := merged];
    forall i, j | 0 <= i < |keys| && 0 <= j < |keys| && keys[i].accessKey == keys[j].accessKey
      ensures i == j
    {
      assert keys[i].accessKey == reg.keys[i].accessKey && keys[j].accessKey == reg.keys[j].accessKey;
    }
    UniqueLookup(keys, k);
  }

  /** Delete: an unknown id is KeyNotFound; otherwise its row goes. */
  function Delete(reg: Registry.Registry, id: int): (r: Result<Registry.Registry, Error>)
    ensures r.Err? <==> Registry.GetKey(reg.keys, id).None?
    ensures r.Err? ==> r.error == KeyNotFound
    ensures r.Ok? ==> Registry.GetKey(r.value.keys, id).None?
    ensures r.Ok? ==> forall x :: x in r.value.keys <==> x in reg.keys && x.id != id
    ensures r.Ok? ==> r.value.projects == reg.projects && r.value.environments == reg.environments
  {
    match Registry.GetKey(reg.keys, id)
    case None => Err(KeyNotFound)
    case Some(_) => Ok(reg.(keys := Registry.DeleteKey(reg.keys, id)))
  }

  /** Deleting a key keeps the tables well formed. */
  lemma DeleteKeepsGood(reg: Registry.Registry, id: int)
    requires Registry.Good(reg) && Registry.GetKey(reg.keys, id).Some?
    ensures Registry.Good(Delete(reg, id).value)
  {
    Registry.DeleteKeyKeepsGood(reg, id);
  }

  /** Regenerate: a new key pair for an existing key; nothing else about the
      key changes. */
  function Regenerate(reg: Registry.Registry, hash: Hasher, id: int, uuid1: string, uuid2: string)
    : (r: Result<Issued, Error>)
    requires |uuid1| == UuidLength && |uuid2| == UuidLength
    ensures r.Err? <==> Registry.GetKey(reg.keys, id).None?
    ensures r.Err? ==> r.error == KeyNotFound
    ensures r.Ok? ==> r.value.secret == SecretKeyOf(uuid2)
    ensures r.Ok? ==> r.value.key == Registry.GetKey(reg.keys, id).value.(
      accessKey := AccessKeyOf(uuid1), secretKeyHash := hash(r.value.secret))
    ensures r.Ok? ==> r.value.reg == reg.(keys := Registry.UpdateKey(reg.keys, r.value.key))
  {
    match Registry.GetKey(reg.keys, id)
    case None => Err(KeyNotFound)
    case Some(key) =>
      var secret := SecretKeyOf(uuid2);
      var key' := key.(accessKey := AccessKeyOf(uuid1), secretKeyHash := hash(secret));
      Ok(Issued(reg.(keys := Registry.UpdateKey(reg.keys, key')), key', secret))
  }

  /** After re-issuing under a fresh access key, the old access key finds
      no key, the new one finds the re-issued key, and access keys stay
      unique. */
  lemma RegenerateRevokesOldKey(reg: Registry.Registry, hash: Hasher, id: int, uuid1: string, uuid2: string)
    requires Registry.Good(reg) && Middleware.UniqueAccessKeys(reg.keys)
    requires |uuid1| == UuidLength && |uuid2| == UuidLength
    requires Registry.GetKey(reg.keys, id).Some?
    requires forall i :: 0 <= i < |reg.keys| ==> reg.keys[i].accessKey != AccessKeyOf(uuid1)
    ensures var r := Regenerate(reg, hash, id, uuid1, uuid2).value;
      var before := Registry.GetKey(reg.keys, id).value;
      && Middleware.UniqueAccessKeys(r.reg.keys)
      && Registry.GetKeyByAccessKey(r.reg.keys, before.accessKey).None?
      && Registry.GetKeyByAccessKey(r.reg.keys, r.key.accessKey) == Some(r.key)
      && Registry.Good(r.reg)
  {
    var r := Regenerate(reg, hash, id, uuid1, uuid2).value;
    var k := KeyIndex(reg, id);
    Registry.UpdateKeyAt(reg, k, r.key);
    var keys := reg.keys[k := r.key];
    forall i, j | 0 <= i < |keys| && 0 <= j < |keys| && keys[i].accessKey == keys[j].accessKey
      ensures i == j
    {
      if i != k && j != k {
        assert keys[i].accessKey == reg.keys[i].accessKey && keys[j].accessKey == reg.keys[j].accessKey;
      }
    }
    UniqueLookup(keys, k);
    forall i | 0 <= i < |keys| ensures keys[i].accessKey != reg.keys[k].accessKey {
      if i != k {
        assert keys[i] == reg.keys[i];
      }
    }
  }

  /** GetByAccessKey: KeyNotFound when no key has the access key. */
  function GetByAccessKey(reg: Registry.Registry, accessKey: string): (r: Result<ProjectKey, Error>)
    ensures r.Err? <==> forall i :: 0 <= i < |reg.keys| ==> reg.keys[i].accessKey != accessKey
    ensures r.Err? ==> r.error == KeyNotFound
    ensures r.Ok? ==> r.value in reg.keys && r.value.accessKey == accessKey
  {
    match Registry.GetKeyByAccessKey(reg.keys, accessKey)
    case None => Err(KeyNotFound)
    case Some(key) => Ok(key)
  }
}
