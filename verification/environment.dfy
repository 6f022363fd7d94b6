/** The environment service (internal/service/environment.go): a project's
    environment list, kept in its settings text, and configuration overlays —
    an environment's configuration merged over the base configuration of the
    same name. */
module EnvironmentService {
  import opened Wrappers
  import opened Text
  import opened JsonValue
  import opened Records
  import opened Errors
  import opened Db
  import Codecs
  import Registry
  import ConfigRepo
  import VersionRepo

  /** DefaultEnvironments */
  const DefaultEnvironments := [
    Environment("dev", "开发环境", 1, true),
    Environment("test", "测试环境", 2, true),
    Environment("staging", "预发布环境", 3, true),
    Environment("prod", "生产环境", 4, true)]

  /** The list a project's settings hold, when they decode and name at least
      one environment. */
  function Custom(codecs: Codecs.Codecs, p: Project): (r: Option<seq<Environment>>)
    ensures r.Some? ==> |r.value| > 0
  {
    if p.settings == "" then None
    else
      match codecs.decodeEnvironments(p.settings)
      case Some(envs) => if |envs| > 0 then Some(envs) else None
      case None => None
  }

  /** List */
  function List(codecs: Codecs.Codecs, reg: Registry.Registry, projectId: int): (r: Result<seq<Environment>, Error>)
    ensures Registry.GetProject(reg.projects, projectId).None? <==> r == Err(ProjectNotFound)
    ensures r.Ok? ==> |r.value| > 0
    ensures r.Ok? ==> var c := Custom(codecs, Registry.GetProject(reg.projects, projectId).value);
      r.value == if c.Some? then c.value else DefaultEnvironments
  {
    match Registry.GetProject(reg.projects, projectId)
    case None => Err(ProjectNotFound)
    case Some(p) => Ok(if Custom(codecs, p).Some? then Custom(codecs, p).value else DefaultEnvironments)
  }

  predicate NameTaken(envs: seq<Environment>, name: string) {
    exists i :: 0 <= i < |envs| && envs[i].name == name
  }

  /** Create: a new name is appended last, numbered one past the list; the
      project row is saved with the new settings text. */
  function Create(codecs: Codecs.Codecs, reg: Registry.Registry, projectId: int, env: Environment)
    : (r: Result<Registry.Registry, Error>)
    ensures Registry.GetProject(reg.projects, projectId).None? ==> r == Err(ProjectNotFound)
    ensures r.Err? && r.error != ProjectNotFound ==> r.error == EnvironmentExists
    ensures r.Ok? ==>
      var p := Registry.GetProject(reg.projects, projectId).value;
      var envs := List(codecs, reg, projectId).value;
      && !NameTaken(envs, env.name)
      && r.value == reg.(projects := Registry.UpdateProject(reg.projects,
           p.(settings := codecs.encodeEnvironments(envs + [env.(order := |envs| + 1)]))))
  {
    match Registry.GetProject(reg.projects, projectId)
    case None => Err(ProjectNotFound)
    case Some(p) =>
      var envs := List(codecs, reg, projectId).value;
      if NameTaken(envs, env.name) then Err(EnvironmentExists)
      else
        var envs' := envs + [env.(order := |envs| + 1)];
        Ok(reg.(projects := Registry.UpdateProject(reg.projects, p.(settings := codecs.encodeEnvironments(envs')))))
  }

  /** With lawful codecs, listing after a successful Create gives the old
      list followed by the new environment, numbered one past it. */
  lemma CreateThenList(codecs: Codecs.Codecs, reg: Registry.Registry, projectId: int, env: Environment)
    requires Codecs.EnvironmentsLawful(codecs) && Registry.Good(reg)
    requires Create(codecs, reg, projectId, env).Ok?
    ensures var envs := List(codecs, reg, projectId).value;
      List(codecs, Create(codecs, reg, projectId, env).value, projectId)
        == Ok(envs + [env.(order := |envs| + 1)])
  {
    var p := Registry.GetProject(reg.projects, projectId).value;
    var envs := List(codecs, reg, projectId).value;
    var envs' := envs + [env.(order := |envs| + 1)];
    var p' := p.(settings := codecs.encodeEnvironments(envs'));
    var k :| 0 <= k < |reg.projects| && reg.projects[k] == p;
    Registry.GetProjectAfterUpdate(reg, k, p');
    Registry.UpdateProjectAt(reg, k, p');
    ListSaved(codecs, reg.(projects := reg.projects[k := p']), p', envs');
  }

  /** A project whose settings hold an encoded non-empty list lists it. */
  lemma ListSaved(codecs: Codecs.Codecs, reg: Registry.Registry, p: Project, envs: seq<Environment>)
    requires Codecs.EnvironmentsLawful(codecs)
    requires |envs| > 0 && p.settings == codecs.encodeEnvironments(envs)
    requires Registry.GetProject(reg.projects, p.id) == Some(p)
    ensures List(codecs, reg, p.id) == Ok(envs)
  {
    assert codecs.decodeEnvironments(p.settings) == Some(envs);
    assert p.settings != "";
  }

  /** An environment name already listed is refused. */
  lemma CreateRejectsDuplicate(codecs: Codecs.Codecs, reg: Registry.Registry, projectId: int, env: Environment, i: nat)
    requires List(codecs, reg, projectId).Ok?
    requires i < |List(codecs, reg, projectId).value| && List(codecs, reg, projectId).value[i].name == env.name
    ensures Create(codecs, reg, projectId, env) == Err(EnvironmentExists)
  {
  }

  // ---------------------------------------------------------------------------
  // Deep merge
  // ---------------------------------------------------------------------------

  /** deepMerge: the base entries, then every override entry written over
      them, two objects under one key being merged recursively. */
  function DeepMerge(base: seq<Field>, override: seq<Field>): (r: seq<Field>)
    requires WellFormedFields(base) && WellFormedFields(override)
    ensures WellFormedFields(r)
    ensures forall k :: k !in Keys(override) ==> Lookup(r, k) == Lookup(base, k)
    ensures forall i :: 0 <= i < |override| ==>
      Lookup(r, override[i].key) == Some(MergeValue(Lookup(base, override[i].key), override[i].value))
    decreases SizeFields(override), 2
  {
    MergeInto(base, override)
  }

  /** The override loop, from the entries merged so far. */
  function MergeInto(acc: seq<Field>, override: seq<Field>): (r: seq<Field>)
    requires WellFormedFields(acc) && WellFormedFields(override)
    ensures WellFormedFields(r)
    ensures forall k :: k !in Keys(override) ==> Lookup(r, k) == Lookup(acc, k)
    ensures forall i :: 0 <= i < |override| ==>
      Lookup(r, override[i].key) == Some(MergeValue(Lookup(acc, override[i].key), override[i].value))
    decreases SizeFields(override), 1
  {
    if |override| == 0 then acc
    else
      var k := override[0].key;
      var prev := Lookup(acc, k);
      LookupWellFormed(acc, k);
      var v := MergeValue(prev, override[0].value);
      PutWellFormed(acc, k, v);
      var acc' := Put(acc, k, v);
      var rest := override[1..];
      var r := MergeInto(acc', rest);
      KeysOfTail(override);
      assert k !in Keys(rest) by {
        forall i | 0 <= i < |rest| ensures rest[i].key != k {
          assert override[i + 1] == rest[i];
          assert Less(k, rest[i].key);
          LessIrreflexive(k);
        }
      }
      assert Lookup(r, k) == Some(v);
      assert forall i :: 1 <= i < |override| ==>
        Lookup(r, override[i].key) == Some(MergeValue(Lookup(acc, override[i].key), override[i].value)) by {
        forall i | 1 <= i < |override|
          ensures Lookup(r, override[i].key) == Some(MergeValue(Lookup(acc, override[i].key), override[i].value))
        {
          assert override[i] == rest[i - 1];
          assert override[i].key in Keys(rest);
          assert Lookup(acc', override[i].key) == Lookup(acc, override[i].key);
        }
      }
      r
  }

  /** The value stored under an override key: the merge of two objects, or
      the override value. */
  function MergeValue(prev: Option<Json>, v: Json): (r: Json)
    requires prev.Some? ==> WellFormed(prev.value)
    requires WellFormed(v)
    ensures WellFormed(r)
    ensures !(prev.Some? && prev.value.Obj? && v.Obj?) ==> r == v
    ensures r.Obj? <==> v.Obj?
    decreases Size(v), 0
  {
    if prev.Some? && prev.value.Obj? && v.Obj? then Obj(DeepMerge(prev.value.fields, v.fields))
    else v
  }

  lemma LookupWellFormed(fs: seq<Field>, k: string)
    requires WellFormedFields(fs)
    ensures Lookup(fs, k).Some? ==> WellFormed(Lookup(fs, k).value)
  {
  }

  lemma KeysOfTail(fs: seq<Field>)
    requires |fs| > 0
    ensures Keys(fs) == {fs[0].key} + Keys(fs[1..])
  {
    forall x | x in Keys(fs) ensures x in {fs[0].key} + Keys(fs[1..]) {
      var i :| 0 <= i < |fs| && fs[i].key == x;
      if i > 0 { assert fs[1..][i - 1].key == x; }
    }
  }

  /** The result's keys are the union of both key sets. */
  lemma MergeKeys(base: seq<Field>, override: seq<Field>)
    requires WellFormedFields(base) && WellFormedFields(override)
    ensures Keys(DeepMerge(base, override)) == Keys(base) + Keys(override)
  {
    var r := DeepMerge(base, override);
    forall k ensures k in Keys(r) <==> k in Keys(base) + Keys(override) {
      if k in Keys(override) {
        var i :| 0 <= i < |override| && override[i].key == k;
        assert Lookup(r, k).Some?;
      } else {
        assert Lookup(r, k) == Lookup(base, k);
      }
    }
  }

  /** Merging an empty override changes nothing. */
  lemma MergeEmptyOverride(base: seq<Field>)
    requires WellFormedFields(base)
    ensures DeepMerge(base, []) == base
  {
  }

  /** Over an empty base the override is the result. */
  lemma MergeIntoEmptyBase(override: seq<Field>)
    requires WellFormedFields(override)
    ensures DeepMerge([], override) == override
  {
    var r := DeepMerge([], override);
    forall k ensures Lookup(r, k) == Lookup(override, k) {
      if k in Keys(override) {
        var i :| 0 <= i < |override| && override[i].key == k;
        LookupAt(override, i);
      }
    }
    Extensional(r, override);
  }

  /** A configuration merged with itself is itself. */
  lemma {:induction false} MergeSelf(m: seq<Field>)
    requires WellFormedFields(m)
    ensures DeepMerge(m, m) == m
    decreases SizeFields(m)
  {
    var r := DeepMerge(m, m);
    forall k ensures Lookup(r, k) == Lookup(m, k) {
      if k in Keys(m) {
        var i :| 0 <= i < |m| && m[i].key == k;
        LookupAt(m, i);
        if m[i].value.Obj? {
          FieldSmaller(m, i);
          MergeSelf(m[i].value.fields);
        }
      }
    }
    Extensional(r, m);
  }

  lemma {:induction false} FieldSmaller(fs: seq<Field>, i: nat)
    requires i < |fs|
    ensures Size(fs[i].value) < SizeFields(fs)
  {
    if i > 0 {
      FieldSmaller(fs[1..], i - 1);
    }
  }

  /** A merge of two documents the library can hold is one it can hold:
      every number in it comes from one side or the other. */
  lemma {:induction false} MergeHeld(base: seq<Field>, override: seq<Field>, number: real -> bool)
    requires WellFormedFields(base) && WellFormedFields(override)
    requires NumbersInFields(base, number) && NumbersInFields(override, number)
    ensures NumbersInFields(DeepMerge(base, override), number)
    decreases SizeFields(override)
  {
    var r := DeepMerge(base, override);
    forall k | Lookup(r, k).Some? ensures NumbersIn(Lookup(r, k).value, number) {
      if k in Keys(override) {
        var i :| 0 <= i < |override| && override[i].key == k;
        var prev := Lookup(base, k);
        LookupHeld(base, k, number);
        LookupWellFormed(base, k);
        if prev.Some? && prev.value.Obj? && override[i].value.Obj? {
          FieldSmaller(override, i);
          MergeHeld(prev.value.fields, override[i].value.fields, number);
        }
      } else {
        LookupHeld(base, k, number);
      }
    }
    HeldByLookup(r, number);
  }

  /** MergeConfig: an empty environment text returns the base text verbatim,
      but only once the base has decoded. */
  function MergeConfig(lib: Library, baseContent: string, envContent: string): (r: Result<string, Error>)
    ensures ParseObject(lib, baseContent).None? <==> r == Err(InvalidBaseConfig)
    ensures ParseObject(lib, baseContent).Some? && envContent == "" ==> r == Ok(baseContent)
    ensures r.Err? && r.error != InvalidBaseConfig ==> r.error == InvalidEnvConfig
    ensures r.Ok? && envContent != "" ==>
      && ParseObject(lib, envContent).Some?
      && var merged := DeepMerge(EntriesOf(ParseObject(lib, baseContent).value),
                                 EntriesOf(ParseObject(lib, envContent).value));
         r.value == lib.marshalIndent(ObjValue(merged))
  {
    match ParseObject(lib, baseContent)
    case None => Err(InvalidBaseConfig)
    case Some(base) =>
      if envContent == "" then Ok(baseContent)
      else
        match ParseObject(lib, envContent)
        case None => Err(InvalidEnvConfig)
        case Some(env) => Ok(lib.marshalIndent(ObjValue(DeepMerge(EntriesOf(base), EntriesOf(env)))))
  }

  /** The merged text decodes, with a lawful library, to an object holding
      every base key and every environment key. */
  lemma MergeConfigKeys(lib: Library, baseContent: string, envContent: string)
    requires LawfulIndent(lib)
    requires MergeConfig(lib, baseContent, envContent).Ok? && envContent != ""
    ensures var b := EntriesOf(ParseObject(lib, baseContent).value);
      var e := EntriesOf(ParseObject(lib, envContent).value);
      && lib.parse(MergeConfig(lib, baseContent, envContent).value) == Some(ObjValue(DeepMerge(b, e)))
      && Keys(DeepMerge(b, e)) == Keys(b) + Keys(e)
  {
    var b := EntriesOf(ParseObject(lib, baseContent).value);
    var e := EntriesOf(ParseObject(lib, envContent).value);
    MergeKeys(b, e);
    DecodedObjectHeld(lib, baseContent);
    DecodedObjectHeld(lib, envContent);
    MergeHeld(b, e, lib.number);
    assert Holds(lib, ObjValue(DeepMerge(b, e)));
  }

  /** GetConfigForEnv: the latest version, its content merged over the base
      configuration when the configuration belongs to another environment. */
  function GetConfigForEnv(db: Db, lib: Library, configId: int, env: string): (r: Result<ConfigVersion, Error>)
    ensures ConfigRepo.GetByID(db.configs, configId).None? ==> r == Err(ConfigNotFound)
    ensures ConfigRepo.GetByID(db.configs, configId).Some? ==>
      var latest := VersionRepo.GetLatest(db.versions, configId);
      && (latest.None? <==> r == Err(RecordNotFound))
      && (latest.Some? ==> r == Ok(Overlay(db, lib, ConfigRepo.GetByID(db.configs, configId).value, latest.value, env)))
  {
    match ConfigRepo.GetByID(db.configs, configId)
    case None => Err(ConfigNotFound)
    case Some(c) =>
      match VersionRepo.GetLatest(db.versions, configId)
      case None => Err(RecordNotFound)
      case Some(v) => Ok(Overlay(db, lib, c, v, env))
  }

  /** The version served for `env`: unchanged when the configuration is of
      that environment or of none, and whenever the base configuration, its
      latest version or the merge is missing; otherwise the same row with the
      merged content. */
  function Overlay(db: Db, lib: Library, c: Config, v: ConfigVersion, env: string): (r: ConfigVersion)
    ensures r == v.(content := r.content)
    ensures c.environment == env || c.environment == "" ==> r == v
    ensures r != v ==> && BaseContent(db, c).Some?
                       && MergeConfig(lib, BaseContent(db, c).value, v.content) == Ok(r.content)
    ensures BaseContent(db, c).None? ==> r == v
  {
    if c.environment == env || c.environment == "" then v
    else
      match BaseContent(db, c)
      case None => v
      case Some(baseText) =>
        match MergeConfig(lib, baseText, v.content)
        case Err(_) => v
        case Ok(merged) => v.(content := merged)
  }

  /** The latest content of the base configuration: same project, name and
      namespace, empty environment. */
  function BaseContent(db: Db, c: Config): (r: Option<string>)
    ensures r.Some? <==>
      var base := ConfigRepo.GetByNameAndEnv(db.configs, c.projectId, c.name, c.namespace, "");
      base.Some? && VersionRepo.GetLatest(db.versions, base.value.id).Some?
  {
    match ConfigRepo.GetByNameAndEnv(db.configs, c.projectId, c.name, c.namespace, "")
    case None => None
    case Some(base) =>
      match VersionRepo.GetLatest(db.versions, base.id)
      case None => None
      case Some(bv) => Some(bv.content)
  }

  /** Over a base with no keys of its own, a non-empty environment
      configuration is served as its own entries. */
  lemma OverlayOnEmptyBase(db: Db, lib: Library, c: Config, v: ConfigVersion, env: string)
    requires LawfulIndent(lib)
    requires v.content != ""
    requires Overlay(db, lib, c, v, env) != v
    requires ParseObject(lib, BaseContent(db, c).value) == Some(Some([]))
    ensures ParseObject(lib, v.content).Some?
    ensures lib.parse(Overlay(db, lib, c, v, env).content)
      == Some(ObjValue(EntriesOf(ParseObject(lib, v.content).value)))
  {
    var baseText := BaseContent(db, c).value;
    var merged := Overlay(db, lib, c, v, env).content;
    assert MergeConfig(lib, baseText, v.content) == Ok(merged);
    var e := EntriesOf(ParseObject(lib, v.content).value);
    assert EntriesOf(ParseObject(lib, baseText).value) == [];
    MergeIntoEmptyBase(e);
    assert merged == lib.marshalIndent(ObjValue(e));
    DecodedObjectHeld(lib, v.content);
    assert Holds(lib, ObjValue(e));
  }
}
