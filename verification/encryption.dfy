/** Field encryption (internal/service/encryption.go): AES-256-GCM values
    carried as "ENC:" + base64(nonce ‖ sealed), and the walks that encrypt
    selected members of a decoded document, decrypt every encrypted member,
    or mask it. The cipher, base64 and the entropy source are parameters. */
module Encryption {
  import opened Wrappers
  import opened Text
  import opened JsonValue
  import opened Errors
  import Utf8

  type byte = Utf8.byte

  const KeySize := 32

  /** gcm.NonceSize() for cipher.NewGCM: the standard 96-bit nonce. */
  const NonceSize := 12

  const EncryptedPrefix := "ENC:"

  const MaskText := "******"

  type Nonce = n: seq<byte> | |n| == NonceSize witness seq(12, _ => 0 as byte)

  /** gcm.Seal and gcm.Open under a key, and base64.StdEncoding. */
  datatype Primitives = Primitives(
    seal: (seq<byte>, Nonce, string) -> seq<byte>,
    open: (seq<byte>, Nonce, seq<byte>) -> Option<string>,
    encode: seq<byte> -> string,
    decode: string -> Option<seq<byte>>)

  /** aes.NewCipher accepts AES-128, AES-192 and AES-256 keys only. */
  predicate AesKey(key: seq<byte>) {
    |key| == 16 || |key| == 24 || |key| == 32
  }

  /** Opening what was sealed under the same key and nonce gives the
      plaintext back, and base64 decodes what it encoded. */
  ghost predicate Lawful(p: Primitives) {
    && (forall key, nonce, text {:trigger p.seal(key, nonce, text)} ::
          AesKey(key) ==> p.open(key, nonce, p.seal(key, nonce, text)) == Some(text))
    && (forall bs {:trigger p.encode(bs)} :: p.decode(p.encode(bs)) == Some(bs))
  }

  datatype Service = Service(key: seq<byte>, prims: Primitives)

  /** NewEncryptionService: the key's bytes, zero-padded after the original
      bytes or cut to 32. */
  function NormalizeKey(key: seq<byte>): (k: seq<byte>)
    ensures |k| == KeySize
    ensures forall i :: 0 <= i < KeySize ==> k[i] == if i < |key| then key[i] else 0
  {
    if |key| < KeySize then key + seq(KeySize - |key|, _ => 0 as byte)
    else key[..KeySize]
  }

  function NewService(key: string, prims: Primitives): (s: Service)
    ensures AesKey(s.key)
    ensures s.key == NormalizeKey(Utf8.Encode(key))
  {
    Service(NormalizeKey(Utf8.Encode(key)), prims)
  }

  /** Normalising is idempotent: a 32-byte key is kept as it is. */
  lemma NormalizeKeyIdempotent(key: seq<byte>)
    ensures NormalizeKey(NormalizeKey(key)) == NormalizeKey(key)
    ensures |key| == KeySize ==> NormalizeKey(key) == key
  {
  }

  /** Trailing zero bytes make no difference below 32 bytes, so such keys
      name the same cipher key. */
  lemma ZeroPaddedKeysCollide(key: seq<byte>)
    requires |key| < KeySize
    ensures NormalizeKey(key + [0 as byte]) == NormalizeKey(key)
  {
  }

  /** IsEncrypted */
  predicate IsEncrypted(value: string) {
    HasPrefix(value, EncryptedPrefix)
  }

  /** Encrypt, with the nonce the entropy source delivered (None when
      reading it failed): base64 of the nonce followed by the sealed text. */
  function Encrypt(svc: Service, nonce: Option<Nonce>, plaintext: string): (r: Result<string, Error>)
    ensures r.Err? <==> !AesKey(svc.key) || nonce.None?
    ensures r.Err? ==> r.error == EncryptionFailed
  {
    if !AesKey(svc.key) then Err(EncryptionFailed)
    else match nonce
      case None => Err(EncryptionFailed)
      case Some(n) => Ok(svc.prims.encode(n + svc.prims.seal(svc.key, n, plaintext)))
  }

  /** Decrypt: undecodable base64, data shorter than a nonce, or a failed
      authentication are all ErrDecryptionFailed. */
  function Decrypt(svc: Service, text: string): (r: Result<string, Error>)
    ensures r.Err? ==> r.error == DecryptionFailed
    ensures svc.prims.decode(text).None? ==> r.Err?
    ensures svc.prims.decode(text).Some? && |svc.prims.decode(text).value| < NonceSize ==> r.Err?
    ensures r.Ok? ==> AesKey(svc.key) && var data := svc.prims.decode(text).value;
      |data| >= NonceSize && svc.prims.open(svc.key, data[..NonceSize], data[NonceSize..]) == Some(r.value)
  {
    match svc.prims.decode(text)
    case None => Err(DecryptionFailed)
    case Some(data) =>
      if !AesKey(svc.key) || |data| < NonceSize then Err(DecryptionFailed)
      else
        match svc.prims.open(svc.key, data[..NonceSize], data[NonceSize..])
        case None => Err(DecryptionFailed)
        case Some(plaintext) => Ok(plaintext)
  }

  /** EncryptWithPrefix: every result is recognised as encrypted. */
  function EncryptWithPrefix(svc: Service, nonce: Option<Nonce>, plaintext: string): (r: Result<string, Error>)
    ensures r.Err? <==> Encrypt(svc, nonce, plaintext).Err?
    ensures r.Err? ==> r.error == EncryptionFailed
    ensures r.Ok? ==> IsEncrypted(r.value) && r.value[|EncryptedPrefix|..] == Encrypt(svc, nonce, plaintext).value
  {
    match Encrypt(svc, nonce, plaintext)
    case Err(e) => Err(e)
    case Ok(c) =>
      var r := EncryptedPrefix + c;
      assert r[..|EncryptedPrefix|] == EncryptedPrefix;
      Ok(r)
  }

  /** DecryptWithPrefix: a value without the prefix comes back unchanged. */
  function DecryptWithPrefix(svc: Service, value: string): (r: Result<string, Error>)
    ensures !IsEncrypted(value) ==> r == Ok(value)
    ensures IsEncrypted(value) ==> r == Decrypt(svc, value[|EncryptedPrefix|..])
  {
    if !HasPrefix(value, EncryptedPrefix) then Ok(value)
    else Decrypt(svc, value[|EncryptedPrefix|..])
  }

  /** With lawful primitives, decrypting an encrypted value gives the
      plaintext back, whatever the nonce. */
  lemma DecryptEncrypted(svc: Service, nonce: Nonce, plaintext: string)
    requires Lawful(svc.prims) && AesKey(svc.key)
    ensures DecryptWithPrefix(svc, EncryptWithPrefix(svc, Some(nonce), plaintext).value) == Ok(plaintext)
  {
    var sealed := svc.prims.seal(svc.key, nonce, plaintext);
    var data := nonce + sealed;
    assert svc.prims.decode(svc.prims.encode(data)) == Some(data);
    assert data[..NonceSize] == nonce && data[NonceSize..] == sealed;
    assert svc.prims.open(svc.key, nonce, sealed) == Some(plaintext);
  }

  // ---------------------------------------------------------------------------
  // The map walks
  // ---------------------------------------------------------------------------

  /** What a walk does to a string member, given the member's dotted path,
      its bare key and its text. */
  type Rewrite = (string, string, string) -> string

  /** The walk shared by encryptMapFields, decryptMapFields and
      maskMapFields: string members are rewritten, objects are walked below
      their path, and in an array only the objects are walked, each below
      the array's own path. Go visits the members in random order; each
      member's rewrite depends on that member alone, so the order is
      immaterial and the model walks in key order. */
  function WalkFields(fs: seq<Field>, prefix: string, f: Rewrite): (r: seq<Field>)
    ensures |r| == |fs|
    ensures forall i :: 0 <= i < |fs| ==>
      r[i] == Field(fs[i].key, WalkMember(fs[i].key, MemberPath(prefix, fs[i].key), fs[i].value, f))
    decreases SizeFields(fs), 1
  {
    if |fs| == 0 then []
    else
      assert SizeFields(fs[1..]) < SizeFields(fs);
      assert forall i :: 1 <= i < |fs| ==> fs[i] == fs[1..][i - 1];
      [Field(fs[0].key, WalkMember(fs[0].key, MemberPath(prefix, fs[0].key), fs[0].value, f))]
        + WalkFields(fs[1..], prefix, f)
  }

  function WalkMember(key: string, path: string, v: Json, f: Rewrite): (r: Json)
    ensures !v.Str? && !v.Obj? && !v.Arr? ==> r == v
    decreases Size(v), 0
  {
    match v
    case Str(s) => Str(f(path, key, s))
    case Obj(gs) => Obj(WalkFields(gs, path, f))
    case Arr(xs) => Arr(WalkItems(xs, path, f))
    case _ => v
  }

  /** Items that are not objects, strings among them, are left alone. */
  function WalkItems(xs: seq<Json>, prefix: string, f: Rewrite): (r: seq<Json>)
    ensures |r| == |xs|
    ensures forall i :: 0 <= i < |xs| && !xs[i].Obj? ==> r[i] == xs[i]
    ensures forall i :: 0 <= i < |xs| && xs[i].Obj? ==> r[i] == Obj(WalkFields(xs[i].fields, prefix, f))
    decreases SizeItems(xs), 1
  {
    if |xs| == 0 then []
    else
      assert SizeItems(xs[1..]) < SizeItems(xs);
      assert forall i :: 1 <= i < |xs| ==> xs[i] == xs[1..][i - 1];
      var head := if xs[0].Obj? then Obj(WalkFields(xs[0].fields, prefix, f)) else xs[0];
      [head] + WalkItems(xs[1..], prefix, f)
  }

  /** P holds of every string member a walk from `prefix` rewrites. */
  predicate AllFields(fs: seq<Field>, prefix: string, P: (string, string, string) -> bool)
    decreases SizeFields(fs), 1
  {
    forall i :: 0 <= i < |fs| ==> AllMember(fs[i].key, MemberPath(prefix, fs[i].key), fs[i].value, P)
  }

  predicate AllMember(key: string, path: string, v: Json, P: (string, string, string) -> bool)
    decreases Size(v), 0
  {
    match v
    case Str(s) => P(path, key, s)
    case Obj(gs) => AllFields(gs, path, P)
    case Arr(xs) => AllItems(xs, path, P)
    case _ => true
  }

  predicate AllItems(xs: seq<Json>, prefix: string, P: (string, string, string) -> bool)
    decreases SizeItems(xs), 1
  {
    forall i :: 0 <= i < |xs| ==> xs[i].Obj? ==> AllFields(xs[i].fields, prefix, P)
  }

  /** A walk keeps the keys and the order of every object, so a decoded
      document stays one. */
  lemma {:induction false} WalkWellFormed(fs: seq<Field>, prefix: string, f: Rewrite)
    requires WellFormedFields(fs)
    ensures WellFormedFields(WalkFields(fs, prefix, f))
    decreases SizeFields(fs), 1
  {
    var r := WalkFields(fs, prefix, f);
    forall i | 0 <= i < |fs| ensures WellFormed(r[i].value) {
      MemberWellFormed(fs[i].key, MemberPath(prefix, fs[i].key), fs[i].value, f);
    }
  }

  lemma {:induction false} MemberWellFormed(key: string, path: string, v: Json, f: Rewrite)
    requires WellFormed(v)
    ensures WellFormed(WalkMember(key, path, v, f))
    decreases Size(v), 0
  {
    match v
    case Obj(gs) => WalkWellFormed(gs, path, f);
    case Arr(xs) => ItemsWellFormed(xs, path, f);
    case _ =>
  }

  lemma {:induction false} ItemsWellFormed(xs: seq<Json>, prefix: string, f: Rewrite)
    requires forall i :: 0 <= i < |xs| ==> WellFormed(xs[i])
    ensures forall i :: 0 <= i < |xs| ==> WellFormed(WalkItems(xs, prefix, f)[i])
    decreases SizeItems(xs), 1
  {
    var r := WalkItems(xs, prefix, f);
    forall i | 0 <= i < |xs| ensures WellFormed(r[i]) {
      if xs[i].Obj? {
        WalkWellFormed(xs[i].fields, prefix, f);
      }
    }
  }

  /** A walk rewrites strings only, so the numbers stay as they were. */
  lemma {:induction false} WalkHeld(fs: seq<Field>, prefix: string, f: Rewrite, number: real -> bool)
    requires NumbersInFields(fs, number)
    ensures NumbersInFields(WalkFields(fs, prefix, f), number)
    decreases SizeFields(fs), 1
  {
    var r := WalkFields(fs, prefix, f);
    forall i | 0 <= i < |fs| ensures NumbersIn(r[i].value, number) {
      MemberHeld(fs[i].key, MemberPath(prefix, fs[i].key), fs[i].value, f, number);
    }
  }

  lemma {:induction false} MemberHeld(key: string, path: string, v: Json, f: Rewrite, number: real -> bool)
    requires NumbersIn(v, number)
    ensures NumbersIn(WalkMember(key, path, v, f), number)
    decreases Size(v), 0
  {
    match v
    case Obj(gs) => WalkHeld(gs, path, f, number);
    case Arr(xs) =>
      var r := WalkItems(xs, path, f);
      forall i | 0 <= i < |xs| ensures NumbersIn(r[i], number) {
        if xs[i].Obj? {
          WalkHeld(xs[i].fields, path, f, number);
        }
      }
    case _ =>
  }

  /** The predicate "the rewrite leaves this string alone". */
  function Fixes(f: Rewrite): (string, string, string) -> bool {
    (path: string, key: string, s: string) => f(path, key, s) == s
  }

  /** A walk whose rewrite leaves every string it meets alone changes
      nothing. */
  lemma {:induction false} FixedWalk(fs: seq<Field>, prefix: string, f: Rewrite)
    requires AllFields(fs, prefix, Fixes(f))
    ensures WalkFields(fs, prefix, f) == fs
    decreases SizeFields(fs), 1
  {
    var r := WalkFields(fs, prefix, f);
    forall i | 0 <= i < |fs| ensures r[i] == fs[i] {
      FixedMember(fs[i].key, MemberPath(prefix, fs[i].key), fs[i].value, f);
    }
  }

  lemma {:induction false} FixedMember(key: string, path: string, v: Json, f: Rewrite)
    requires AllMember(key, path, v, Fixes(f))
    ensures WalkMember(key, path, v, f) == v
    decreases Size(v), 0
  {
    match v
    case Str(s) => assert Fixes(f)(path, key, s);
    case Obj(gs) => FixedWalk(gs, path, f);
    case Arr(xs) => FixedItems(xs, path, f);
    case _ =>
  }

  lemma {:induction false} FixedItems(xs: seq<Json>, prefix: string, f: Rewrite)
    requires AllItems(xs, prefix, Fixes(f))
    ensures WalkItems(xs, prefix, f) == xs
    decreases SizeItems(xs), 1
  {
    var r := WalkItems(xs, prefix, f);
    forall i | 0 <= i < |xs| ensures r[i] == xs[i] {
      if xs[i].Obj? {
        FixedWalk(xs[i].fields, prefix, f);
      }
    }
  }

  /** Two rewrites that agree on every string. */
  ghost predicate SameRewrite(f: Rewrite, g: Rewrite) {
    forall path, key, s :: f(path, key, s) == g(path, key, s)
  }

  /** Rewrites that agree on every string give the same walk. */
  lemma {:induction false} SameWalk(fs: seq<Field>, prefix: string, f: Rewrite, g: Rewrite)
    requires SameRewrite(f, g)
    ensures WalkFields(fs, prefix, f) == WalkFields(fs, prefix, g)
    decreases SizeFields(fs), 1
  {
    var a := WalkFields(fs, prefix, f);
    var b := WalkFields(fs, prefix, g);
    forall i | 0 <= i < |fs| ensures a[i] == b[i] {
      SameMember(fs[i].key, MemberPath(prefix, fs[i].key), fs[i].value, f, g);
    }
  }

  lemma {:induction false} SameMember(key: string, path: string, v: Json, f: Rewrite, g: Rewrite)
    requires SameRewrite(f, g)
    ensures WalkMember(key, path, v, f) == WalkMember(key, path, v, g)
    decreases Size(v), 0
  {
    match v
    case Str(s) => assert f(path, key, s) == g(path, key, s);
    case Obj(gs) => SameWalk(gs, path, f, g);
    case Arr(xs) => SameItems(xs, path, f, g);
    case _ =>
  }

  lemma {:induction false} SameItems(xs: seq<Json>, prefix: string, f: Rewrite, g: Rewrite)
    requires SameRewrite(f, g)
    ensures WalkItems(xs, prefix, f) == WalkItems(xs, prefix, g)
    decreases SizeItems(xs), 1
  {
    var a := WalkItems(xs, prefix, f);
    var b := WalkItems(xs, prefix, g);
    forall i | 0 <= i < |xs| ensures a[i] == b[i] {
      if xs[i].Obj? {
        SameWalk(xs[i].fields, prefix, f, g);
      }
    }
  }

  /** One rewrite after another. */
  function Then(f: Rewrite, g: Rewrite): Rewrite {
    (path: string, key: string, s: string) => g(path, key, f(path, key, s))
  }

  /** Two walks in a row are one walk with the two rewrites in a row. */
  lemma {:induction false} WalkThen(fs: seq<Field>, prefix: string, f: Rewrite, g: Rewrite)
    ensures WalkFields(WalkFields(fs, prefix, f), prefix, g) == WalkFields(fs, prefix, Then(f, g))
    decreases SizeFields(fs), 1
  {
    var once := WalkFields(fs, prefix, f);
    var twice := WalkFields(once, prefix, g);
    var both := WalkFields(fs, prefix, Then(f, g));
    forall i | 0 <= i < |fs| ensures twice[i] == both[i] {
      MemberThen(fs[i].key, MemberPath(prefix, fs[i].key), fs[i].value, f, g);
    }
  }

  lemma {:induction false} MemberThen(key: string, path: string, v: Json, f: Rewrite, g: Rewrite)
    ensures WalkMember(key, path, WalkMember(key, path, v, f), g) == WalkMember(key, path, v, Then(f, g))
    decreases Size(v), 0
  {
    match v
    case Obj(gs) => WalkThen(gs, path, f, g);
    case Arr(xs) => ItemsThen(xs, path, f, g);
    case _ =>
  }

  lemma {:induction false} ItemsThen(xs: seq<Json>, prefix: string, f: Rewrite, g: Rewrite)
    ensures WalkItems(WalkItems(xs, prefix, f), prefix, g) == WalkItems(xs, prefix, Then(f, g))
    decreases SizeItems(xs), 1
  {
    var once := WalkItems(xs, prefix, f);
    var twice := WalkItems(once, prefix, g);
    var both := WalkItems(xs, prefix, Then(f, g));
    forall i | 0 <= i < |xs| ensures twice[i] == both[i] {
      if xs[i].Obj? {
        WalkThen(xs[i].fields, prefix, f, g);
      }
    }
  }

  /** A rewrite whose every output satisfies P leaves only strings
      satisfying P where the walk reaches. */
  lemma {:induction false} WalkEstablishes(fs: seq<Field>, prefix: string, f: Rewrite, P: (string, string, string) -> bool)
    requires forall path, key, s :: P(path, key, f(path, key, s))
    ensures AllFields(WalkFields(fs, prefix, f), prefix, P)
    decreases SizeFields(fs), 1
  {
    var r := WalkFields(fs, prefix, f);
    forall i | 0 <= i < |r| ensures AllMember(r[i].key, MemberPath(prefix, r[i].key), r[i].value, P) {
      MemberEstablishes(fs[i].key, MemberPath(prefix, fs[i].key), fs[i].value, f, P);
    }
  }

  lemma {:induction false} MemberEstablishes(key: string, path: string, v: Json, f: Rewrite, P: (string, string, string) -> bool)
    requires forall path, key, s :: P(path, key, f(path, key, s))
    ensures AllMember(key, path, WalkMember(key, path, v, f), P)
    decreases Size(v), 0
  {
    match v
    case Obj(gs) => WalkEstablishes(gs, path, f, P);
    case Arr(xs) => ItemsEstablish(xs, path, f, P);
    case _ =>
  }

  lemma {:induction false} ItemsEstablish(xs: seq<Json>, prefix: string, f: Rewrite, P: (string, string, string) -> bool)
    requires forall path, key, s :: P(path, key, f(path, key, s))
    ensures AllItems(WalkItems(xs, prefix, f), prefix, P)
    decreases SizeItems(xs), 1
  {
    var r := WalkItems(xs, prefix, f);
    forall i | 0 <= i < |r| && r[i].Obj? ensures AllFields(r[i].fields, prefix, P) {
      if xs[i].Obj? {
        WalkEstablishes(xs[i].fields, prefix, f, P);
      }
    }
  }

  /** A property of every reached string carries over to a weaker one. */
  lemma {:induction false} AllWeaken(fs: seq<Field>, prefix: string, P: (string, string, string) -> bool, Q: (string, string, string) -> bool)
    requires forall path, key, s :: P(path, key, s) ==> Q(path, key, s)
    requires AllFields(fs, prefix, P)
    ensures AllFields(fs, prefix, Q)
    decreases SizeFields(fs), 1
  {
    forall i | 0 <= i < |fs| ensures AllMember(fs[i].key, MemberPath(prefix, fs[i].key), fs[i].value, Q) {
      MemberWeaken(fs[i].key, MemberPath(prefix, fs[i].key), fs[i].value, P, Q);
    }
  }

  lemma {:induction false} MemberWeaken(key: string, path: string, v: Json, P: (string, string, string) -> bool, Q: (string, string, string) -> bool)
    requires forall path, key, s :: P(path, key, s) ==> Q(path, key, s)
    requires AllMember(key, path, v, P)
    ensures AllMember(key, path, v, Q)
    decreases Size(v), 0
  {
    match v
    case Obj(gs) => AllWeaken(gs, path, P, Q);
    case Arr(xs) =>
      forall i | 0 <= i < |xs| && xs[i].Obj? ensures AllFields(xs[i].fields, path, Q) {
        AllWeaken(xs[i].fields, path, P, Q);
      }
    case _ =>
  }

  // ---------------------------------------------------------------------------
  // The three rewrites and the service calls
  // ---------------------------------------------------------------------------

  /** encryptMapFields' rewrite: a member selected by its dotted path or by
      its bare key, and not encrypted yet, is replaced by its encryption; a
      failed encryption leaves it as it was. `random` is the nonce the
      entropy source yields for an encryption of the given text. */
  function EncryptRewrite(svc: Service, selected: set<string>, random: string -> Option<Nonce>): Rewrite {
    (path: string, key: string, s: string) =>
      if (path in selected || key in selected) && !IsEncrypted(s) then
        match EncryptWithPrefix(svc, random(s), s)
        case Ok(c) => c
        case Err(_) => s
      else s
  }

  /** decryptMapFields' rewrite: an encrypted member is replaced by its
      decryption; a failed decryption leaves it as it was. */
  function DecryptRewrite(svc: Service): Rewrite {
    (path: string, key: string, s: string) =>
      if IsEncrypted(s) then
        match DecryptWithPrefix(svc, s)
        case Ok(p) => p
        case Err(_) => s
      else s
  }

  /** maskMapFields' rewrite. */
  function MaskRewrite(): Rewrite {
    (path: string, key: string, s: string) => if IsEncrypted(s) then MaskText else s
  }

  /** Unmarshal into a map, walk it, marshal it back. A `null` document is a
      nil map: nothing to walk, and it marshals as null. */
  function Transform(lib: Library, content: string, f: Rewrite): (r: Result<string, Error>)
    ensures ParseObject(lib, content).None? <==> r == Err(UnmarshalFailed)
    ensures r.Err? ==> r.error == UnmarshalFailed
    ensures ParseObject(lib, content) == Some(None) ==> r == Ok(lib.marshal(Null))
  {
    match ParseObject(lib, content)
    case None => Err(UnmarshalFailed)
    case Some(None) => Ok(lib.marshal(Null))
    case Some(Some(fs)) =>
      WalkWellFormed(fs, "", f);
      Ok(lib.marshal(ObjValue(WalkFields(fs, "", f))))
  }

  /** The field names a caller selects, as a set. */
  function Selection(fields: seq<string>): (r: set<string>)
    ensures forall f :: f in r <==> f in fields
  {
    set f | f in fields :: f
  }

  /** EncryptFields */
  function EncryptFields(lib: Library, svc: Service, random: string -> Option<Nonce>, content: string, fields: seq<string>)
    : (r: Result<string, Error>)
    ensures ParseObject(lib, content).None? <==> r.Err?
  {
    Transform(lib, content, EncryptRewrite(svc, Selection(fields), random))
  }

  /** DecryptFields */
  function DecryptFields(lib: Library, svc: Service, content: string): (r: Result<string, Error>)
    ensures ParseObject(lib, content).None? <==> r.Err?
  {
    Transform(lib, content, DecryptRewrite(svc))
  }

  /** MaskEncryptedFields */
  function MaskEncryptedFields(lib: Library, content: string): (r: Result<string, Error>)
    ensures ParseObject(lib, content).None? <==> r.Err?
  {
    Transform(lib, content, MaskRewrite())
  }

  // ---------------------------------------------------------------------------
  // Properties of the walks
  // ---------------------------------------------------------------------------

  /** "The string is not encrypted." */
  function Plain(): (string, string, string) -> bool {
    (path: string, key: string, s: string) => !IsEncrypted(s)
  }

  /** "The member is not selected." */
  function Unselected(selected: set<string>): (string, string, string) -> bool {
    (path: string, key: string, s: string) => path !in selected && key !in selected
  }

  /** "A selected member is encrypted." */
  function SelectedSealed(selected: set<string>): (string, string, string) -> bool {
    (path: string, key: string, s: string) => (path in selected || key in selected) ==> IsEncrypted(s)
  }

  /** Members that are not selected keep their values. */
  lemma EncryptTouchesOnlySelected(fs: seq<Field>, prefix: string, svc: Service, selected: set<string>, random: string -> Option<Nonce>)
    requires AllFields(fs, prefix, Unselected(selected))
    ensures WalkFields(fs, prefix, EncryptRewrite(svc, selected, random)) == fs
  {
    var f := EncryptRewrite(svc, selected, random);
    AllWeaken(fs, prefix, Unselected(selected), Fixes(f));
    FixedWalk(fs, prefix, f);
  }

  /** When every encryption succeeds, every selected string member ends up
      encrypted, whether it was before or not. */
  lemma EncryptSealsSelected(fs: seq<Field>, prefix: string, svc: Service, selected: set<string>, random: string -> Option<Nonce>)
    requires AesKey(svc.key)
    requires forall s :: random(s).Some?
    ensures AllFields(WalkFields(fs, prefix, EncryptRewrite(svc, selected, random)), prefix, SelectedSealed(selected))
  {
    var f := EncryptRewrite(svc, selected, random);
    forall path, key, s ensures SelectedSealed(selected)(path, key, f(path, key, s)) {
      if (path in selected || key in selected) && !IsEncrypted(s) {
        assert EncryptWithPrefix(svc, random(s), s).Ok?;
      }
    }
    WalkEstablishes(fs, prefix, f, SelectedSealed(selected));
  }

  /** Decrypting an encrypted string member gives back the plain text it
      had, whether or not it was selected and whether or not encryption
      failed. */
  lemma DecryptUndoesEncrypt(svc: Service, selected: set<string>, random: string -> Option<Nonce>, path: string, key: string, s: string)
    requires Lawful(svc.prims)
    requires !IsEncrypted(s)
    ensures Then(EncryptRewrite(svc, selected, random), DecryptRewrite(svc))(path, key, s) == s
  {
    var f := EncryptRewrite(svc, selected, random);
    var g := DecryptRewrite(svc);
    if (path in selected || key in selected) && AesKey(svc.key) && random(s).Some? {
      var c := EncryptWithPrefix(svc, random(s), s);
      assert f(path, key, s) == c.value;
      DecryptEncrypted(svc, random(s).value, s);
      assert g(path, key, c.value) == s;
    } else {
      if path in selected || key in selected {
        assert EncryptWithPrefix(svc, random(s), s).Err?;
      }
      assert f(path, key, s) == s;
      assert g(path, key, s) == s;
    }
  }

  /** Decrypting an encrypted document restores it, provided it held no
      encrypted string to begin with. */
  lemma EncryptThenDecrypt(fs: seq<Field>, prefix: string, svc: Service, selected: set<string>, random: string -> Option<Nonce>)
    requires Lawful(svc.prims)
    requires AllFields(fs, prefix, Plain())
    ensures WalkFields(WalkFields(fs, prefix, EncryptRewrite(svc, selected, random)), prefix, DecryptRewrite(svc)) == fs
  {
    var both := Then(EncryptRewrite(svc, selected, random), DecryptRewrite(svc));
    forall path, key, s | Plain()(path, key, s) ensures Fixes(both)(path, key, s) {
      DecryptUndoesEncrypt(svc, selected, random, path, key, s);
    }
    AllWeaken(fs, prefix, Plain(), Fixes(both));
    FixedWalk(fs, prefix, both);
    WalkThen(fs, prefix, EncryptRewrite(svc, selected, random), DecryptRewrite(svc));
  }

  /** After masking, no encrypted string is left where the walk reaches. */
  lemma MaskLeavesNothingEncrypted(fs: seq<Field>, prefix: string)
    ensures AllFields(WalkFields(fs, prefix, MaskRewrite()), prefix, Plain())
  {
    assert MaskText[..|EncryptedPrefix|][0] != EncryptedPrefix[0];
    WalkEstablishes(fs, prefix, MaskRewrite(), Plain());
  }

  /** A document without encrypted strings is not changed by masking or by
      decryption. */
  lemma PlainDocumentUnchanged(fs: seq<Field>, prefix: string, svc: Service)
    requires AllFields(fs, prefix, Plain())
    ensures WalkFields(fs, prefix, MaskRewrite()) == fs
    ensures WalkFields(fs, prefix, DecryptRewrite(svc)) == fs
  {
    AllWeaken(fs, prefix, Plain(), Fixes(MaskRewrite()));
    FixedWalk(fs, prefix, MaskRewrite());
    AllWeaken(fs, prefix, Plain(), Fixes(DecryptRewrite(svc)));
    FixedWalk(fs, prefix, DecryptRewrite(svc));
  }

  /** Strings directly inside an array are not masked: `{"a": ["ENC:x"]}`
      comes back unchanged, while `{"a": "ENC:x"}` is masked. */
  lemma MaskSkipsArrayStrings()
    ensures WalkFields([Field("a", Arr([Str("ENC:x")]))], "", MaskRewrite()) == [Field("a", Arr([Str("ENC:x")]))]
    ensures WalkFields([Field("a", Str("ENC:x"))], "", MaskRewrite()) == [Field("a", Str(MaskText))]
  {
    assert IsEncrypted("ENC:x") by { assert "ENC:x"[..4] == "ENC:"; }
    var item := [Str("ENC:x")];
    assert !item[0].Obj?;
    assert WalkItems(item, "a", MaskRewrite()) == item;
  }

  /** EncryptFields then DecryptFields gives back the document, re-encoded,
      for a document without encrypted strings. */
  lemma EncryptFieldsThenDecryptFields(lib: Library, svc: Service, random: string -> Option<Nonce>, content: string, fields: seq<string>)
    requires JsonValue.Lawful(lib) && Lawful(svc.prims)
    requires ParseObject(lib, content).Some?
    requires AllFields(EntriesOf(ParseObject(lib, content).value), "", Plain())
    ensures DecryptFields(lib, svc, EncryptFields(lib, svc, random, content, fields).value)
      == Ok(lib.marshal(if ParseObject(lib, content).value.Some? then Obj(EntriesOf(ParseObject(lib, content).value)) else Null))
  {
    var selected := Selection(fields);
    var enc := EncryptRewrite(svc, selected, random);
    match ParseObject(lib, content).value
    case None =>
      assert lib.parse(lib.marshal(Null)) == Some(Null);
    case Some(fs) =>
      WalkWellFormed(fs, "", enc);
      DecodedObjectHeld(lib, content);
      WalkHeld(fs, "", enc, lib.number);
      var sealed := ObjValue(WalkFields(fs, "", enc));
      assert lib.parse(lib.marshal(sealed)) == Some(sealed);
      EncryptThenDecrypt(fs, "", svc, selected, random);
  }
}
