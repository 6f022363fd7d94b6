/** Environment comparison (internal/service/env_diff.go): the recursive
    comparison of two decoded configuration objects into modified keys, keys
    only in the source and keys only in the target, its summary, and the sync
    that copies keys from one environment's latest version into another's. */
module EnvDiff {
  import opened Wrappers
  import opened Text
  import opened JsonValue
  import opened Records
  import opened Errors
  import opened Db
  import ConfigRepo
  import VersionRepo

  /** EnvDifference; `kind` is the "type" field. */
  datatype Difference = Difference(path: string, sourceValue: Json, targetValue: Json, kind: string)

  /** The three lists compareMap appends to. */
  datatype Lists = Lists(differences: seq<Difference>, onlyInSource: seq<string>, onlyInTarget: seq<string>)

  datatype Summary = Summary(totalKeys: int, modifiedKeys: int, addedKeys: int, removedKeys: int)

  datatype Comparison = Comparison(sourceEnv: string, targetEnv: string, lists: Lists, summary: Summary)

  const NoLists := Lists([], [], [])

  function Concat(a: Lists, b: Lists): Lists {
    Lists(a.differences + b.differences, a.onlyInSource + b.onlyInSource, a.onlyInTarget + b.onlyInTarget)
  }

  predicate IsEmpty(l: Lists) {
    |l.differences| == 0 && |l.onlyInSource| == 0 && |l.onlyInTarget| == 0
  }

  /** valuesEqual: the two JSON encodings are the same text. */
  predicate ValuesEqual(lib: Library, a: Value, b: Value) {
    lib.marshal(a) == lib.marshal(b)
  }

  /** For a lawful library the encodings of two values it can hold, as
      every decoded value is, coincide exactly when the values are equal. */
  lemma ValuesEqualIsEquality(lib: Library, a: Value, b: Value)
    requires Lawful(lib)
    requires Holds(lib, a) && Holds(lib, b)
    ensures ValuesEqual(lib, a, b) <==> a == b
  {
    if ValuesEqual(lib, a, b) {
      assert lib.parse(lib.marshal(a)) == Some(a);
      assert lib.parse(lib.marshal(b)) == Some(b);
    }
  }

  /** compareMap. The sorted union of both key sets is walked as a merge of
      the two canonical field lists. */
  function CompareMap(lib: Library, prefix: string, s: seq<Field>, t: seq<Field>): (r: Lists)
    requires WellFormedFields(s) && WellFormedFields(t)
    ensures forall i :: 0 <= i < |r.differences| ==> r.differences[i].kind == "modified"
    decreases SizeFields(s) + SizeFields(t)
  {
    if |s| == 0 && |t| == 0 then NoLists
    else if |s| == 0 || (|t| > 0 && Less(t[0].key, s[0].key)) then
      Concat(Lists([], [], [MemberPath(prefix, t[0].key)]), CompareMap(lib, prefix, s, t[1..]))
    else if |t| == 0 || Less(s[0].key, t[0].key) then
      Concat(Lists([], [MemberPath(prefix, s[0].key)], []), CompareMap(lib, prefix, s[1..], t))
    else
      Concat(Shared(lib, MemberPath(prefix, s[0].key), s[0].value, t[0].value), CompareMap(lib, prefix, s[1..], t[1..]))
  }

  /** A key present on both sides: two objects are compared key by key,
      anything else is one "modified" entry when the encodings differ. */
  function Shared(lib: Library, path: string, sv: Json, tv: Json): (r: Lists)
    requires WellFormed(sv) && WellFormed(tv)
    ensures forall i :: 0 <= i < |r.differences| ==> r.differences[i].kind == "modified"
    decreases Size(sv) + Size(tv)
  {
    if sv.Obj? && tv.Obj? then CompareMap(lib, path, sv.fields, tv.fields)
    else if ValuesEqual(lib, sv, tv) then NoLists
    else Lists([Difference(path, sv, tv, "modified")], [], [])
  }

  /** A configuration compared with itself shows no difference. */
  lemma {:induction false} CompareSelf(lib: Library, prefix: string, s: seq<Field>)
    requires WellFormedFields(s)
    ensures IsEmpty(CompareMap(lib, prefix, s, s))
    decreases SizeFields(s)
  {
    if |s| > 0 {
      LessIrreflexive(s[0].key);
      if s[0].value.Obj? {
        assert SizeFields(s) == 1 + Size(s[0].value) + SizeFields(s[1..]);
        CompareSelf(lib, MemberPath(prefix, s[0].key), s[0].value.fields);
      }
      CompareSelf(lib, prefix, s[1..]);
    }
  }

  /** With a lawful library the comparison of two objects it can hold is
      empty exactly when they are equal. */
  lemma {:induction false} EmptyIffEqual(lib: Library, prefix: string, s: seq<Field>, t: seq<Field>)
    requires Lawful(lib)
    requires WellFormedFields(s) && WellFormedFields(t)
    requires NumbersInFields(s, lib.number) && NumbersInFields(t, lib.number)
    ensures IsEmpty(CompareMap(lib, prefix, s, t)) <==> s == t
    decreases SizeFields(s) + SizeFields(t)
  {
    if s == t {
      CompareSelf(lib, prefix, s);
    }
    if IsEmpty(CompareMap(lib, prefix, s, t)) && (|s| > 0 || |t| > 0) {
      assert |s| > 0 && |t| > 0 && !Less(t[0].key, s[0].key) && !Less(s[0].key, t[0].key);
      LessTotal(s[0].key, t[0].key);
      var sv, tv := s[0].value, t[0].value;
      var path := MemberPath(prefix, s[0].key);
      assert IsEmpty(Shared(lib, path, sv, tv));
      HeldSplit(s, lib.number);
      HeldSplit(t, lib.number);
      if sv.Obj? && tv.Obj? {
        assert SizeFields(s) == 1 + Size(sv) + SizeFields(s[1..]);
        assert SizeFields(t) == 1 + Size(tv) + SizeFields(t[1..]);
        EmptyIffEqual(lib, path, sv.fields, tv.fields);
      } else {
        ValuesEqualIsEquality(lib, sv, tv);
      }
      EmptyIffEqual(lib, prefix, s[1..], t[1..]);
      SameHeadSameTail(s, t);
    }
  }

  lemma SameHeadSameTail(s: seq<Field>, t: seq<Field>)
    requires |s| > 0 && |t| > 0 && s[0] == t[0] && s[1..] == t[1..]
    ensures s == t
  {
    assert s == [s[0]] + s[1..] && t == [t[0]] + t[1..];
  }

  /** The comparison read from the other side. */
  function SwapLists(l: Lists): Lists {
    Lists(SwapDifferences(l.differences), l.onlyInTarget, l.onlyInSource)
  }

  function SwapDifferences(ds: seq<Difference>): (r: seq<Difference>)
    ensures |r| == |ds|
    ensures forall i :: 0 <= i < |ds| ==>
      r[i] == Difference(ds[i].path, ds[i].targetValue, ds[i].sourceValue, ds[i].kind)
  {
    seq(|ds|, i requires 0 <= i < |ds| => Difference(ds[i].path, ds[i].targetValue, ds[i].sourceValue, ds[i].kind))
  }

  lemma SwapConcat(a: Lists, b: Lists)
    ensures SwapLists(Concat(a, b)) == Concat(SwapLists(a), SwapLists(b))
  {
    assert SwapDifferences(a.differences + b.differences)
        == SwapDifferences(a.differences) + SwapDifferences(b.differences);
  }

  /** Swapping source and target swaps the two "only in" lists and the two
      values of every modified entry, and changes nothing else. */
  lemma {:induction false} CompareSwap(lib: Library, prefix: string, s: seq<Field>, t: seq<Field>)
    requires WellFormedFields(s) && WellFormedFields(t)
    ensures CompareMap(lib, prefix, t, s) == SwapLists(CompareMap(lib, prefix, s, t))
    decreases SizeFields(s) + SizeFields(t)
  {
    if |s| == 0 && |t| == 0 {
    } else if |s| == 0 || (|t| > 0 && Less(t[0].key, s[0].key)) {
      if |s| > 0 { LessAsymmetric(t[0].key, s[0].key); }
      CompareSwap(lib, prefix, s, t[1..]);
      SwapConcat(Lists([], [], [MemberPath(prefix, t[0].key)]), CompareMap(lib, prefix, s, t[1..]));
    } else if |t| == 0 || Less(s[0].key, t[0].key) {
      CompareSwap(lib, prefix, s[1..], t);
      SwapConcat(Lists([], [MemberPath(prefix, s[0].key)], []), CompareMap(lib, prefix, s[1..], t));
    } else {
      LessTotal(s[0].key, t[0].key);
      var sv, tv := s[0].value, t[0].value;
      var path := MemberPath(prefix, s[0].key);
      if sv.Obj? && tv.Obj? {
        assert SizeFields(s) == 1 + Size(sv) + SizeFields(s[1..]);
        assert SizeFields(t) == 1 + Size(tv) + SizeFields(t[1..]);
        CompareSwap(lib, path, sv.fields, tv.fields);
      }
      assert Shared(lib, path, tv, sv) == SwapLists(Shared(lib, path, sv, tv));
      CompareSwap(lib, prefix, s[1..], t[1..]);
      SwapConcat(Shared(lib, path, sv, tv), CompareMap(lib, prefix, s[1..], t[1..]));
    }
  }

  lemma KeysCons(fs: seq<Field>)
    requires |fs| > 0
    ensures Keys(fs) == {fs[0].key} + Keys(fs[1..])
  {
    forall x | x in Keys(fs) ensures x in {fs[0].key} + Keys(fs[1..]) {
      var i :| 0 <= i < |fs| && fs[i].key == x;
      if i > 0 { assert fs[1..][i - 1].key == x; }
    }
  }

  /** Every key of the target that the source lacks is listed, at its
      path, among the keys only in the target. */
  lemma {:induction false} OnlyInTargetListed(lib: Library, prefix: string, s: seq<Field>, t: seq<Field>, k: string)
    requires WellFormedFields(s) && WellFormedFields(t)
    requires k in Keys(t) && k !in Keys(s)
    ensures MemberPath(prefix, k) in CompareMap(lib, prefix, s, t).onlyInTarget
    decreases SizeFields(s) + SizeFields(t)
  {
    KeysCons(t);
    if |s| > 0 { KeysCons(s); }
    if |s| == 0 || Less(t[0].key, s[0].key) {
      if k != t[0].key {
        OnlyInTargetListed(lib, prefix, s, t[1..], k);
      }
    } else if Less(s[0].key, t[0].key) {
      OnlyInTargetListed(lib, prefix, s[1..], t, k);
    } else {
      LessTotal(s[0].key, t[0].key);
      OnlyInTargetListed(lib, prefix, s[1..], t[1..], k);
    }
  }

  /** And every key of the source that the target lacks among the keys only
      in the source. */
  lemma OnlyInSourceListed(lib: Library, prefix: string, s: seq<Field>, t: seq<Field>, k: string)
    requires WellFormedFields(s) && WellFormedFields(t)
    requires k in Keys(s) && k !in Keys(t)
    ensures MemberPath(prefix, k) in CompareMap(lib, prefix, s, t).onlyInSource
  {
    OnlyInTargetListed(lib, prefix, t, s, k);
    CompareSwap(lib, prefix, s, t);
  }

  /** The summary: every count follows the lists. */
  function Summarize(l: Lists): (r: Summary)
    ensures r.addedKeys == |l.onlyInTarget| && r.removedKeys == |l.onlyInSource|
    ensures (forall i :: 0 <= i < |l.differences| ==> l.differences[i].kind == "modified")
      ==> r.modifiedKeys == |l.differences| && r.totalKeys == r.modifiedKeys + r.addedKeys + r.removedKeys
    ensures IsEmpty(l) <==> r == Summary(0, 0, 0, 0)
  {
    Summary(|l.differences| + |l.onlyInSource| + |l.onlyInTarget|, CountModified(l.differences),
            |l.onlyInTarget|, |l.onlyInSource|)
  }

  function CountModified(ds: seq<Difference>): (n: nat)
    ensures n <= |ds|
    ensures n == |ds| <==> forall i :: 0 <= i < |ds| ==> ds[i].kind == "modified"
  {
    if |ds| == 0 then 0
    else
      var n := CountModified(ds[..|ds| - 1]);
      assert forall i :: 0 <= i < |ds| - 1 ==> ds[..|ds| - 1][i] == ds[i];
      n + (if ds[|ds| - 1].kind == "modified" then 1 else 0)
  }

  /** compareContent: both texts must decode as JSON objects (`null` decodes
      to a map with no entries). */
  function CompareContent(lib: Library, sourceEnv: string, targetEnv: string, sourceContent: string,
                          targetContent: string): (r: Result<Comparison, Error>)
    ensures r.Err? <==> ParseObject(lib, sourceContent).None? || ParseObject(lib, targetContent).None?
    ensures r.Err? ==> r.error == UnmarshalFailed
    ensures r.Ok? ==>
      && r.value.sourceEnv == sourceEnv && r.value.targetEnv == targetEnv
      && r.value.summary.modifiedKeys == |r.value.lists.differences|
      && r.value.summary.totalKeys
         == |r.value.lists.differences| + |r.value.lists.onlyInSource| + |r.value.lists.onlyInTarget|
      && (Lawful(lib) ==>
            (IsEmpty(r.value.lists) <==> EntriesOf(ParseObject(lib, sourceContent).value)
                                         == EntriesOf(ParseObject(lib, targetContent).value)))
  {
    match ParseObject(lib, sourceContent)
    case None => Err(UnmarshalFailed)
    case Some(sm) =>
      match ParseObject(lib, targetContent)
      case None => Err(UnmarshalFailed)
      case Some(tm) =>
        var s, t := EntriesOf(sm), EntriesOf(tm);
        var l := CompareMap(lib, "", s, t);
        DecodedEntriesHeld(lib, sourceContent);
        DecodedEntriesHeld(lib, targetContent);
        LawfulEmptyIffEqual(lib, s, t);
        Ok(Comparison(sourceEnv, targetEnv, l, Summarize(l)))
  }

  lemma LawfulEmptyIffEqual(lib: Library, s: seq<Field>, t: seq<Field>)
    requires WellFormedFields(s) && WellFormedFields(t)
    requires DecodesHeld(lib) ==> NumbersInFields(s, lib.number) && NumbersInFields(t, lib.number)
    ensures Lawful(lib) ==> (IsEmpty(CompareMap(lib, "", s, t)) <==> s == t)
  {
    if Lawful(lib) {
      EmptyIffEqual(lib, "", s, t);
    }
  }

  /** The entries of a decoded map are held, when decoded documents are. */
  lemma DecodedEntriesHeld(lib: Library, text: string)
    ensures DecodesHeld(lib) && ParseObject(lib, text).Some? ==>
      NumbersInFields(EntriesOf(ParseObject(lib, text).value), lib.number)
  {
    if DecodesHeld(lib) {
      DecodedObjectHeld(lib, text);
    }
  }

  /** A content compared with itself: empty lists and an all-zero summary. */
  lemma CompareContentSelf(lib: Library, env: string, content: string)
    requires ParseObject(lib, content).Some?
    ensures CompareContent(lib, env, env, content, content).Ok?
    ensures CompareContent(lib, env, env, content, content).value.summary == Summary(0, 0, 0, 0)
  {
    CompareSelf(lib, "", EntriesOf(ParseObject(lib, content).value));
  }

  /** The latest version of the configuration that shares this one's project,
      name and namespace in environment `env`. */
  function LatestInEnv(db: Db, c: Config, env: string): (r: Result<ConfigVersion, Error>)
    ensures r.Ok? ==> r.value in db.versions
    ensures ConfigRepo.GetByNameAndEnv(db.configs, c.projectId, c.name, c.namespace, env).None?
      <==> r == Err(ConfigNotFound)
    ensures r.Ok? ==>
      var other := ConfigRepo.GetByNameAndEnv(db.configs, c.projectId, c.name, c.namespace, env);
      other.Some? && Some(r.value) == VersionRepo.GetLatest(db.versions, other.value.id)
  {
    match ConfigRepo.GetByNameAndEnv(db.configs, c.projectId, c.name, c.namespace, env)
    case None => Err(ConfigNotFound)
    case Some(other) =>
      match VersionRepo.GetLatest(db.versions, other.id)
      case None => Err(RecordNotFound)
      case Some(v) => Ok(v)
  }

  /** Compare */
  function Compare(db: Db, lib: Library, configId: int, sourceEnv: string, targetEnv: string)
    : (r: Result<Comparison, Error>)
    ensures ConfigRepo.GetByID(db.configs, configId).None? ==> r == Err(ConfigNotFound)
    ensures r.Ok? ==>
      var c := ConfigRepo.GetByID(db.configs, configId).value;
      && LatestInEnv(db, c, sourceEnv).Ok? && LatestInEnv(db, c, targetEnv).Ok?
      && r == CompareContent(lib, sourceEnv, targetEnv, LatestInEnv(db, c, sourceEnv).value.content,
                             LatestInEnv(db, c, targetEnv).value.content)
  {
    match ConfigRepo.GetByID(db.configs, configId)
    case None => Err(ConfigNotFound)
    case Some(c) =>
      match LatestInEnv(db, c, sourceEnv)
      case Err(e) => Err(e)
      case Ok(sv) =>
        match LatestInEnv(db, c, targetEnv)
        case Err(e) => Err(e)
        case Ok(tv) => CompareContent(lib, sourceEnv, targetEnv, sv.content, tv.content)
  }

  // ---------------------------------------------------------------------------
  // Sync
  // ---------------------------------------------------------------------------

  /** json.Unmarshal into a map whose error is ignored: anything but an
      object leaves the map nil (None). */
  function DecodeMap(lib: Library, content: string): (r: Option<seq<Field>>)
    ensures r.Some? ==> WellFormedFields(r.value)
    ensures r.Some? <==> ParseObject(lib, content).Some? && ParseObject(lib, content).value.Some?
  {
    match ParseObject(lib, content)
    case Some(Some(fs)) => Some(fs)
    case _ => None
  }

  /** The listed keys present in the source, copied into the target. */
  function CopyKeys(src: seq<Field>, tgt: seq<Field>, keys: seq<string>): (r: seq<Field>)
    requires WellFormedFields(src) && WellFormedFields(tgt)
    ensures WellFormedFields(r)
    ensures forall k :: (Lookup(r, k) ==
      if k in keys && Lookup(src, k).Some? then Lookup(src, k) else Lookup(tgt, k))
    decreases |keys|
  {
    if |keys| == 0 then tgt
    else
      var r := CopyKeys(src, CopyKey(src, tgt, keys[0]), keys[1..]);
      assert forall k :: k in keys <==> k == keys[0] || k in keys[1..];
      r
  }

  /** One key: `if val, exists := sourceData[key]; exists { targetData[key] = val }`. */
  function CopyKey(src: seq<Field>, tgt: seq<Field>, key: string): (r: seq<Field>)
    requires WellFormedFields(src) && WellFormedFields(tgt)
    ensures WellFormedFields(r)
    ensures forall k :: Lookup(r, k) == (if k == key && Lookup(src, k).Some? then Lookup(src, k) else Lookup(tgt, k))
  {
    match Lookup(src, key)
    case None => tgt
    case Some(v) =>
      PutWellFormed(tgt, key, v);
      Put(tgt, key, v)
  }

  /** The copy step as written: assigning into the target map panics when
      the target map is nil, which is what a target text that is `null` or
      not an object decodes to. None is the panic. */
  function CopyKeysAsWritten(src: seq<Field>, tgt: Option<seq<Field>>, keys: seq<string>)
    : (r: Option<Option<seq<Field>>>)
    requires WellFormedFields(src) && (tgt.Some? ==> WellFormedFields(tgt.value))
    decreases |keys|
  {
    if |keys| == 0 then Some(tgt)
    else
      match Lookup(src, keys[0])
      case None => CopyKeysAsWritten(src, tgt, keys[1..])
      case Some(v) =>
        if tgt.None? then None
        else
          PutWellFormed(tgt.value, keys[0], v);
          CopyKeysAsWritten(src, Some(Put(tgt.value, keys[0], v)), keys[1..])
  }

  /** On a target that decoded to a map the code as written is the copy. */
  lemma {:induction false} AsWrittenCopiesIntoMap(src: seq<Field>, tgt: seq<Field>, keys: seq<string>)
    requires WellFormedFields(src) && WellFormedFields(tgt)
    ensures CopyKeysAsWritten(src, Some(tgt), keys) == Some(Some(CopyKeys(src, tgt, keys)))
    decreases |keys|
  {
    if |keys| > 0 {
      match Lookup(src, keys[0])
      case None => AsWrittenCopiesIntoMap(src, tgt, keys[1..]);
      case Some(v) =>
        PutWellFormed(tgt, keys[0], v);
        AsWrittenCopiesIntoMap(src, Put(tgt, keys[0], v), keys[1..]);
    }
  }

  /** The panic: the target holds `null`, the source {"a": 1}, and key "a"
      is to be synced. */
  lemma AsWrittenPanicsOnNullTarget()
    ensures CopyKeysAsWritten([Field("a", Num(1.0))], None, ["a"]).None?
  {
    assert Lookup([Field("a", Num(1.0))], "a") == Some(Num(1.0));
  }

  /** The data Sync writes, nil targets being treated as empty objects.
      None is a nil map (encoded as `null`). */
  function SyncData(src: Option<seq<Field>>, tgt: Option<seq<Field>>, keys: seq<string>): (r: Option<seq<Field>>)
    requires src.Some? ==> WellFormedFields(src.value)
    requires tgt.Some? ==> WellFormedFields(tgt.value)
    ensures r.Some? ==> WellFormedFields(r.value)
    ensures |keys| == 0 ==> r == src
    ensures |keys| > 0 ==> r.Some? && forall k :: (Lookup(r.value, k) ==
      if k in keys && Lookup(EntriesOf(src), k).Some? then Lookup(EntriesOf(src), k) else Lookup(EntriesOf(tgt), k))
  {
    if |keys| == 0 then src
    else Some(CopyKeys(EntriesOf(src), EntriesOf(tgt), keys))
  }

  /** The data Sync writes as the code has it: the source map for an empty
      key list; otherwise each listed key present in the source is assigned
      into the target map. None is the panic of assigning into a nil target
      map; Some(None) is a nil map, encoded as `null`. */
  function SyncDataAsWritten(src: Option<seq<Field>>, tgt: Option<seq<Field>>, keys: seq<string>)
    : (r: Option<Option<seq<Field>>>)
    requires src.Some? ==> WellFormedFields(src.value)
    requires tgt.Some? ==> WellFormedFields(tgt.value)
    ensures tgt.Some? ==> r.Some?
    ensures tgt.Some? && |keys| > 0 ==> r.Some? && r.value.Some?
    ensures r.None? ==> tgt.None? && |keys| > 0
  {
    if |keys| == 0 then Some(src)
    else
      assert tgt.Some? ==> CopyKeysAsWritten(EntriesOf(src), tgt, keys).Some?
                           && CopyKeysAsWritten(EntriesOf(src), tgt, keys).value.Some? by {
        if tgt.Some? { AsWrittenCopiesIntoMap(EntriesOf(src), tgt.value, keys); }
      }
      CopyKeysAsWritten(EntriesOf(src), tgt, keys)
  }

  /** Where the target decodes to a map, the code as written writes the
      intended data. */
  lemma SyncDataAgrees(src: Option<seq<Field>>, tgt: seq<Field>, keys: seq<string>)
    requires src.Some? ==> WellFormedFields(src.value)
    requires WellFormedFields(tgt)
    ensures SyncDataAsWritten(src, Some(tgt), keys) == Some(SyncData(src, Some(tgt), keys))
  {
    if |keys| > 0 {
      AsWrittenCopiesIntoMap(EntriesOf(src), tgt, keys);
    }
  }

  /** On a nil target map the code as written panics exactly when some
      listed key is present in the source; otherwise the target stays nil. */
  lemma {:induction false} AsWrittenOnNilTarget(src: seq<Field>, keys: seq<string>)
    requires WellFormedFields(src)
    ensures CopyKeysAsWritten(src, None, keys)
      == if exists i :: 0 <= i < |keys| && Lookup(src, keys[i]).Some? then None else Some(None)
    decreases |keys|
  {
    if |keys| > 0 {
      AsWrittenOnNilTarget(src, keys[1..]);
      assert forall i :: 1 <= i < |keys| ==> keys[i] == keys[1..][i - 1];
      if Lookup(src, keys[0]).None? {
        assert (exists i :: 0 <= i < |keys| && Lookup(src, keys[i]).Some?)
          <==> (exists i :: 0 <= i < |keys[1..]| && Lookup(src, keys[1..][i]).Some?) by {
          if exists i :: 0 <= i < |keys| && Lookup(src, keys[i]).Some? {
            var i :| 0 <= i < |keys| && Lookup(src, keys[i]).Some?;
            assert 0 <= i - 1 < |keys[1..]| && Lookup(src, keys[1..][i - 1]).Some?;
          }
        }
      }
    }
  }

  /** The text written back: json.MarshalIndent of the map. */
  function Encode(lib: Library, data: Option<seq<Field>>): string
    requires data.Some? ==> WellFormedFields(data.value)
  {
    match data
    case None => lib.marshalIndent(Null)
    case Some(fs) => lib.marshalIndent(ObjValue(fs))
  }

  /** The text Sync writes over the target version, None for the panic: a
      target text that decodes to no map (`null`, an array, a scalar or
      invalid text) panics as soon as a listed key is copied into it. */
  function SyncedContent(lib: Library, source: string, target: string, keys: seq<string>): (r: Option<string>)
    ensures r.None? <==> (DecodeMap(lib, target).None?
      && exists i :: 0 <= i < |keys| && Lookup(EntriesOf(DecodeMap(lib, source)), keys[i]).Some?)
    ensures DecodeMap(lib, target).Some? ==>
      r == Some(Encode(lib, SyncData(DecodeMap(lib, source), DecodeMap(lib, target), keys)))
  {
    var src := DecodeMap(lib, source);
    var tgt := DecodeMap(lib, target);
    AsWrittenOnNilTarget(EntriesOf(src), keys);
    assert tgt.Some? ==> SyncDataAsWritten(src, tgt, keys) == Some(SyncData(src, tgt, keys)) by {
      if tgt.Some? { SyncDataAgrees(src, tgt.value, keys); }
    }
    match SyncDataAsWritten(src, tgt, keys)
    case None => None
    case Some(data) => Some(Encode(lib, data))
  }

  /** Sync: the target environment's latest version is overwritten in place;
      no version is added and the configuration pointers do not move. The
      panic of SyncedContent is answered 500 by Recovery. */
  function Sync(db: Db, lib: Library, configId: int, sourceEnv: string, targetEnv: string, keys: seq<string>)
    : (o: Outcome<()>)
    ensures o.result.Err? ==> o.db == db
    ensures ConfigRepo.GetByID(db.configs, configId).None? ==> o.result == Err(ConfigNotFound)
    ensures o.result.Ok? || o.result == Err(Panic) ==>
      var c := ConfigRepo.GetByID(db.configs, configId).value;
      && LatestInEnv(db, c, sourceEnv).Ok? && LatestInEnv(db, c, targetEnv).Ok?
      && var sv := LatestInEnv(db, c, sourceEnv).value;
         var tv := LatestInEnv(db, c, targetEnv).value;
         var written := SyncedContent(lib, sv.content, tv.content, keys);
         && (o.result == Err(Panic) <==> written.None?)
         && (o.result.Ok? ==> o.db == db.(versions := VersionRepo.Update(db.versions, tv.(content := written.value))))
  {
    match ConfigRepo.GetByID(db.configs, configId)
    case None => Outcome(db, Err(ConfigNotFound))
    case Some(c) =>
      match LatestInEnv(db, c, sourceEnv)
      case Err(e) => Outcome(db, Err(e))
      case Ok(sv) =>
        match LatestInEnv(db, c, targetEnv)
        case Err(e) => Outcome(db, Err(e))
        case Ok(tv) =>
          match SyncedContent(lib, sv.content, tv.content, keys)
          case None => Outcome(db, Err(Panic))
          case Some(text) => Outcome(db.(versions := VersionRepo.Update(db.versions, tv.(content := text))), Ok(()))
  }

  /** Syncing every key makes the two environments compare equal: after a
      sync with no key list the target's new text decodes to the source's
      map (nil when the source held none), whatever the target held. */
  lemma SyncAllCopiesSource(lib: Library, source: string, target: string)
    requires LawfulIndent(lib)
    ensures SyncedContent(lib, source, target, []).Some?
    ensures ParseObject(lib, SyncedContent(lib, source, target, []).value) == Some(DecodeMap(lib, source))
  {
    var src := DecodeMap(lib, source);
    DecodedObjectHeld(lib, source);
    assert SyncDataAsWritten(src, DecodeMap(lib, target), []) == Some(src);
    match src
    case None =>
      assert lib.parse(lib.marshalIndent(Null)) == Some(Null);
    case Some(fs) =>
      assert lib.parse(lib.marshalIndent(ObjValue(fs))) == Some(ObjValue(fs));
  }
}
