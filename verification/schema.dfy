/** Configuration schemas (internal/service/schema.go): inferring a schema
    from a decoded document, and checking a decoded document against the
    small part of JSON Schema the service understands ("type", "required",
    "properties", "items", "minItems", "maxItems", "minLength", "maxLength",
    "enum", "minimum", "maximum"). Schemas are decoded objects, so every
    keyword is looked up in canonical fields; Go's random iteration order
    over "properties" becomes ascending key order. */
module Schema {
  import opened Wrappers
  import opened Text
  import opened JsonValue
  import opened Records
  import opened Errors
  import opened Db
  import Utf8
  import GoInt
  import ConfigRepo
  import VersionRepo

  /** What went wrong at one place. The source renders each as a fixed
      Chinese message with the bound or the expected type filled in. */
  datatype Problem =
    | NotJson
    | TypeMismatch(expected: string, actual: string)
    | MissingField
    | TooFewItems(min: int)
    | TooManyItems(max: int)
    | TooShort(min: int)
    | TooLong(max: int)
    | NotInEnum(options: seq<Json>)
    | BelowMinimum(minimum: real)
    | AboveMaximum(maximum: real)

  /** ValidationError: the dotted path of the offending value and why. */
  datatype Issue = Issue(field: string, problem: Problem)

  /** ValidationResult */
  datatype Validation = Validation(valid: bool, issues: seq<Issue>)

  // ---------------------------------------------------------------------------
  // Types
  // ---------------------------------------------------------------------------

  /** getJSONType: the name of a decoded value's kind. */
  function JsonType(v: Json): (t: string)
    ensures t != "integer" && t != ""
  {
    match v
    case Null => "null"
    case Bool(_) => "boolean"
    case Num(_) => "number"
    case Str(_) => "string"
    case Arr(_) => "array"
    case Obj(_) => "object"
  }

  /** typeMatches */
  predicate TypeMatches(actual: string, expected: string) {
    actual == expected || (expected == "number" && actual == "number") || (expected == "integer" && actual == "number")
  }

  /** What a "type" keyword admits, kind by kind; "integer" admits every
      number, whole or not. */
  predicate Admits(t: string, v: Json) {
    || (t == "null" && v.Null?)
    || (t == "boolean" && v.Bool?)
    || ((t == "number" || t == "integer") && v.Num?)
    || (t == "string" && v.Str?)
    || (t == "array" && v.Arr?)
    || (t == "object" && v.Obj?)
  }

  /** The type check passes exactly for the values the keyword admits. */
  lemma TypeCheckAdmits(t: string, v: Json)
    ensures TypeMatches(JsonType(v), t) <==> Admits(t, v)
  {
  }

  /** `float64(int64(v)) == v`: whole and inside the int64 range, where the
      conversion is exact. Outside it the conversion yields MinInt64 (the
      amd64 behaviour), which differs from the value. */
  predicate IsInteger(n: real) {
    n.Floor as real == n && GoInt.MinInt64 as real <= n < GoInt.TwoTo63 as real
  }

  // ---------------------------------------------------------------------------
  // Schema keywords
  // ---------------------------------------------------------------------------

  /** `schema["type"].(string)`, "" when absent or not a string. */
  function SchemaType(schema: seq<Field>): string {
    match Lookup(schema, "type")
    case Some(Str(t)) => t
    case _ => ""
  }

  /** `schema[keyword].(float64)`: a numeric keyword, when it is a number. */
  function Bound(schema: seq<Field>, keyword: string): Option<real> {
    match Lookup(schema, keyword)
    case Some(Num(n)) => Some(n)
    case _ => None
  }

  /** `schema[keyword].([]interface{})`: a keyword read only as an array. */
  function ListKeyword(schema: seq<Field>, keyword: string): Option<seq<Json>> {
    match Lookup(schema, keyword)
    case Some(Arr(xs)) => Some(xs)
    case _ => None
  }

  /** `schema[keyword].(map[string]interface{})`: a keyword read only as an
      object. */
  function ObjectKeyword(schema: seq<Field>, keyword: string): Option<seq<Field>> {
    match Lookup(schema, keyword)
    case Some(Obj(fs)) => Some(fs)
    case _ => None
  }

  /** The keywords validation reads, each through the type assertion the
      source applies to it: a keyword of another JSON type counts as absent. */
  datatype Keywords = Keywords(
    kind: string,
    required: Option<seq<Json>>,
    properties: Option<seq<Field>>,
    itemSchema: Option<seq<Field>>,
    minItems: Option<real>,
    maxItems: Option<real>,
    minLength: Option<real>,
    maxLength: Option<real>,
    options: Option<seq<Json>>,
    minimum: Option<real>,
    maximum: Option<real>)

  function KeywordsOf(schema: seq<Field>): Keywords {
    Keywords(
      SchemaType(schema),
      ListKeyword(schema, "required"),
      ObjectKeyword(schema, "properties"),
      ObjectKeyword(schema, "items"),
      Bound(schema, "minItems"),
      Bound(schema, "maxItems"),
      Bound(schema, "minLength"),
      Bound(schema, "maxLength"),
      ListKeyword(schema, "enum"),
      Bound(schema, "minimum"),
      Bound(schema, "maximum"))
  }

  const KeywordNames := {"type", "required", "properties", "items", "minItems", "maxItems",
                         "minLength", "maxLength", "enum", "minimum", "maximum"}

  /** A member ahead of the key looked up is passed over. */
  lemma LookupPastHead(f: Field, fs: seq<Field>, k: string)
    requires f.key != k
    ensures Lookup([f] + fs, k) == Lookup(fs, k)
  {
    assert ([f] + fs)[1..] == fs;
  }

  /** A schema without any of the keywords: only the type is checked. */
  const NoKeywords := Keywords("", None, None, None, None, None, None, None, None, None, None)

  /** Two schemas that agree on every keyword validation reads are the same
      schema to it. */
  lemma SameKeywords(a: seq<Field>, b: seq<Field>)
    requires forall k :: k in KeywordNames ==> Lookup(a, k) == Lookup(b, k)
    ensures KeywordsOf(a) == KeywordsOf(b)
  {
  }

  /** The path of an array item: `path[i]`, or `[i]` at the root. */
  function ItemPath(path: string, i: nat): string {
    path + "[" + NatToDecimal(i) + "]"
  }

  /** Issues found below a member or item lie below the parent too. */
  lemma IssuesBelow(issues: seq<Issue>, child: string, path: string)
    requires forall i :: 0 <= i < |issues| ==> HasPrefix(issues[i].field, child)
    requires HasPrefix(child, path)
    ensures forall i :: 0 <= i < |issues| ==> HasPrefix(issues[i].field, path)
  {
    forall i | 0 <= i < |issues| ensures HasPrefix(issues[i].field, path) {
      var f := issues[i].field;
      assert f[..|path|] == f[..|child|][..|path|];
    }
  }

  lemma PathsExtend(path: string, name: string, i: nat)
    ensures HasPrefix(MemberPath(path, name), path)
    ensures HasPrefix(ItemPath(path, i), path)
  {
    assert ItemPath(path, i)[..|path|] == path;
    if path != "" {
      assert MemberPath(path, name)[..|path|] == path;
    }
  }

  /** Distinct members of one object get distinct paths. */
  lemma MemberPathInjective(path: string, a: string, b: string)
    ensures MemberPath(path, a) == MemberPath(path, b) ==> a == b
  {
    if path != "" && MemberPath(path, a) == MemberPath(path, b) {
      var p := path + ".";
      assert MemberPath(path, a) == p + a && MemberPath(path, b) == p + b;
      assert a == (p + a)[|p|..];
      assert b == (p + b)[|p|..];
    }
  }

  // ---------------------------------------------------------------------------
  // Validation
  // ---------------------------------------------------------------------------

  /** validateValue. A mismatched type is the only issue reported for that
      value; otherwise the keywords of the schema's own type are checked in
      the source's order. A "required" entry that is not a string makes the
      handler panic. The schema is read only through its keywords. */
  function ValidateValue(path: string, v: Json, schema: seq<Field>): (r: Result<seq<Issue>, Error>)
    ensures r.Err? ==> r.error == Panic
    ensures r.Ok? ==> forall i :: 0 <= i < |r.value| ==> HasPrefix(r.value[i].field, path)
    ensures SchemaType(schema) != "" && !Admits(SchemaType(schema), v) ==>
      r == Ok([Issue(path, TypeMismatch(SchemaType(schema), JsonType(v)))])
    ensures var t := SchemaType(schema);
      t !in {"object", "array", "string", "number", "integer"} && (t == "" || Admits(t, v)) ==> r == Ok([])
    decreases Size(v), 3
  {
    TypeCheckAdmits(SchemaType(schema), v);
    Check(path, v, KeywordsOf(schema))
  }

  /** The body of validateValue, on the keywords of the schema. */
  function Check(path: string, v: Json, k: Keywords): (r: Result<seq<Issue>, Error>)
    ensures r.Err? ==> r.error == Panic
    ensures r.Ok? ==> forall i :: 0 <= i < |r.value| ==> HasPrefix(r.value[i].field, path)
    ensures k.kind != "" && !TypeMatches(JsonType(v), k.kind) ==>
      r == Ok([Issue(path, TypeMismatch(k.kind, JsonType(v)))])
    ensures k.kind !in {"object", "array", "string", "number", "integer"} && (k.kind == "" || TypeMatches(JsonType(v), k.kind)) ==>
      r == Ok([])
    ensures k.kind == "object" && v.Obj? ==> r == ObjectIssues(path, v.fields, k)
    ensures k.kind == "array" && v.Arr? ==> r == ArrayIssues(path, v.items, k)
    decreases Size(v), 2
  {
    var t := k.kind;
    if t != "" && !TypeMatches(JsonType(v), t) then
      Ok([Issue(path, TypeMismatch(t, JsonType(v)))])
    else if t == "object" && v.Obj? then
      ObjectIssues(path, v.fields, k)
    else if t == "array" && v.Arr? then
      ArrayIssues(path, v.items, k)
    else if t == "string" && v.Str? then
      Ok(StringIssues(path, v.s, k))
    else if (t == "number" || t == "integer") && v.Num? then
      Ok(NumberIssues(path, v.n, k))
    else
      Ok([])
  }

  /** An object's "required" names, then its "properties". */
  function ObjectIssues(path: string, fs: seq<Field>, k: Keywords): (r: Result<seq<Issue>, Error>)
    ensures r.Err? ==> r.error == Panic
    ensures r.Ok? ==> forall i :: 0 <= i < |r.value| ==> HasPrefix(r.value[i].field, path)
    ensures r.Ok? <==>
      (k.required.None? || Required(path, fs, k.required.value).Ok?) &&
      (k.properties.None? || Properties(path, fs, k.properties.value).Ok?)
    ensures r.Ok? && k.required.Some? ==> Required(path, fs, k.required.value).value <= r.value
    ensures r.Ok? && k.properties.Some? ==>
      forall x <- Properties(path, fs, k.properties.value).value :: x in r.value
    decreases 1 + SizeFields(fs), 1
  {
    var missing := match k.required
      case Some(names) => Required(path, fs, names)
      case None => Ok([]);
    var nested := match k.properties
      case Some(props) => Properties(path, fs, props)
      case None => Ok([]);
    if missing.Err? then missing
    else if nested.Err? then nested
    else Ok(missing.value + nested.value)
  }

  /** An array's "minItems" and "maxItems", then its "items". */
  function ArrayIssues(path: string, xs: seq<Json>, k: Keywords): (r: Result<seq<Issue>, Error>)
    ensures r.Err? ==> r.error == Panic
    ensures r.Ok? ==> forall i :: 0 <= i < |r.value| ==> HasPrefix(r.value[i].field, path)
    ensures r.Ok? <==> k.itemSchema.None? || Items(path, xs, 0, k.itemSchema.value).Ok?
    ensures r.Ok? ==> CountIssues(path, |xs|, k) <= r.value
    ensures r.Ok? && k.itemSchema.Some? ==>
      forall x <- Items(path, xs, 0, k.itemSchema.value).value :: x in r.value
    decreases 1 + SizeItems(xs), 1
  {
    var counts := CountIssues(path, |xs|, k);
    match k.itemSchema
    case Some(itemSchema) =>
      var items := Items(path, xs, 0, itemSchema);
      if items.Err? then items else Ok(counts + items.value)
    case None => Ok(counts)
  }

  /** minItems and maxItems are inclusive bounds on the number of items. */
  function CountIssues(path: string, n: nat, k: Keywords): (r: seq<Issue>)
    ensures forall i :: 0 <= i < |r| ==> r[i].field == path
    ensures |r| == 0 <==>
      (k.minItems.None? || k.minItems.value <= n as real) && (k.maxItems.None? || n as real <= k.maxItems.value)
  {
    (if k.minItems.Some? && (n as real) < k.minItems.value then [Issue(path, TooFewItems(GoInt.Int64OfFloat(k.minItems.value)))] else [])
    + (if k.maxItems.Some? && (n as real) > k.maxItems.value then [Issue(path, TooManyItems(GoInt.Int64OfFloat(k.maxItems.value)))] else [])
  }

  /** The "required" check: one issue per listed name the object lacks. */
  function Required(path: string, fs: seq<Field>, names: seq<Json>): (r: Result<seq<Issue>, Error>)
    ensures r.Err? <==> exists i :: 0 <= i < |names| && !names[i].Str?
    ensures r.Err? ==> r.error == Panic
    ensures r.Ok? ==> forall i :: 0 <= i < |r.value| ==> HasPrefix(r.value[i].field, path)
  {
    if |names| == 0 then Ok([])
    else if !names[0].Str? then Err(Panic)
    else
      var name := names[0].s;
      var rest := Required(path, fs, names[1..]);
      assert forall i :: 1 <= i < |names| ==> names[i] == names[1..][i - 1];
      if rest.Err? then rest
      else if name in Keys(fs) then rest
      else
        PathsExtend(path, name, 0);
        Ok([Issue(MemberPath(path, name), MissingField)] + rest.value)
  }

  /** The "properties" walk: each listed member the object has, whose schema
      is an object, is validated at its own path. */
  function Properties(path: string, fs: seq<Field>, props: seq<Field>): (r: Result<seq<Issue>, Error>)
    ensures r.Err? ==> r.error == Panic
    ensures r.Ok? ==> forall i :: 0 <= i < |r.value| ==> HasPrefix(r.value[i].field, path)
    decreases 1 + SizeFields(fs), 0, |props|
  {
    if |props| == 0 then Ok([])
    else
      var here := Property(path, fs, props[0]);
      var rest := Properties(path, fs, props[1..]);
      if here.Err? then here
      else if rest.Err? then rest
      else Ok(here.value + rest.value)
  }

  /** One entry of "properties". */
  function Property(path: string, fs: seq<Field>, prop: Field): (r: Result<seq<Issue>, Error>)
    ensures r.Err? ==> r.error == Panic
    ensures r.Ok? ==> forall i :: 0 <= i < |r.value| ==> HasPrefix(r.value[i].field, path)
    ensures Lookup(fs, prop.key).None? || !prop.value.Obj? ==> r == Ok([])
    ensures Lookup(fs, prop.key).Some? && prop.value.Obj? ==>
      r == ValidateValue(MemberPath(path, prop.key), Lookup(fs, prop.key).value, prop.value.fields)
    decreases 1 + SizeFields(fs), 0, 0
  {
    LookupSmaller(fs, prop.key);
    match Lookup(fs, prop.key)
    case Some(value) =>
      if prop.value.Obj? then
        var r := ValidateValue(MemberPath(path, prop.key), value, prop.value.fields);
        PathsExtend(path, prop.key, 0);
        if r.Ok? then IssuesBelow(r.value, MemberPath(path, prop.key), path); r else r
      else Ok([])
    case None => Ok([])
  }

  /** The "items" walk from index `i`. */
  function Items(path: string, xs: seq<Json>, i: nat, itemSchema: seq<Field>): (r: Result<seq<Issue>, Error>)
    requires i <= |xs|
    ensures r.Err? ==> r.error == Panic
    ensures r.Ok? ==> forall j :: 0 <= j < |r.value| ==> HasPrefix(r.value[j].field, path)
    decreases 1 + SizeItems(xs), 0, |xs| - i
  {
    if i == |xs| then Ok([])
    else
      var here := ValidateValue(ItemPath(path, i), xs[i], itemSchema);
      var rest := Items(path, xs, i + 1, itemSchema);
      if here.Err? then here
      else if rest.Err? then rest
      else
        PathsExtend(path, "", i);
        IssuesBelow(here.value, ItemPath(path, i), path);
        Ok(here.value + rest.value)
  }

  /** The items walk fails exactly when some item's validation fails, and
      otherwise reports every item's issues and nothing else. */
  lemma {:induction false} ItemsPropagate(path: string, xs: seq<Json>, i: nat, s: seq<Field>)
    requires i <= |xs|
    ensures Items(path, xs, i, s).Ok? <==>
      forall j | i <= j < |xs| :: ValidateValue(ItemPath(path, j), xs[j], s).Ok?
    ensures Items(path, xs, i, s).Ok? ==> forall j | i <= j < |xs| ::
      ValidateValue(ItemPath(path, j), xs[j], s).Ok? &&
      forall x <- ValidateValue(ItemPath(path, j), xs[j], s).value :: x in Items(path, xs, i, s).value
    ensures Items(path, xs, i, s).Ok? ==> forall x <- Items(path, xs, i, s).value ::
      exists j | i <= j < |xs| ::
        ValidateValue(ItemPath(path, j), xs[j], s).Ok? && x in ValidateValue(ItemPath(path, j), xs[j], s).value
    decreases |xs| - i
  {
    if i < |xs| {
      var r := Items(path, xs, i, s);
      var here := ValidateValue(ItemPath(path, i), xs[i], s);
      var rest := Items(path, xs, i + 1, s);
      ItemsPropagate(path, xs, i + 1, s);
      assert r == if here.Err? then here else if rest.Err? then rest else Ok(here.value + rest.value);
      if r.Ok? {
        forall j | i <= j < |xs|
          ensures ValidateValue(ItemPath(path, j), xs[j], s).Ok?
          ensures forall x <- ValidateValue(ItemPath(path, j), xs[j], s).value :: x in r.value
        {
          assert here.Ok? && rest.Ok? && r.value == here.value + rest.value;
          if j > i {
            var item := ValidateValue(ItemPath(path, j), xs[j], s);
            assert item.Ok? && forall x <- item.value :: x in rest.value;
          }
        }
        forall x | x in r.value
          ensures exists j | i <= j < |xs| ::
            ValidateValue(ItemPath(path, j), xs[j], s).Ok? && x in ValidateValue(ItemPath(path, j), xs[j], s).value
        {
          if x !in here.value {
            assert x in rest.value;
          }
        }
      } else if here.Ok? {
        assert rest.Err?;
      }
    }
  }

  /** The properties walk fails exactly when some entry's check fails, and
      otherwise reports every entry's issues. */
  lemma {:induction false} PropertiesCollect(path: string, fs: seq<Field>, props: seq<Field>)
    ensures Properties(path, fs, props).Ok? <==>
      forall j | 0 <= j < |props| :: Property(path, fs, props[j]).Ok?
    ensures Properties(path, fs, props).Ok? ==> forall j | 0 <= j < |props| ::
      Property(path, fs, props[j]).Ok? && forall x <- Property(path, fs, props[j]).value :: x in Properties(path, fs, props).value
    decreases |props|
  {
    if |props| > 0 {
      var r := Properties(path, fs, props);
      var here := Property(path, fs, props[0]);
      var rest := Properties(path, fs, props[1..]);
      PropertiesCollect(path, fs, props[1..]);
      assert r == if here.Err? then here else if rest.Err? then rest else Ok(here.value + rest.value);
      if r.Ok? {
        assert here.Ok? && rest.Ok? && r.value == here.value + rest.value;
        forall j | 0 <= j < |props|
          ensures Property(path, fs, props[j]).Ok?
          ensures forall x <- Property(path, fs, props[j]).value :: x in r.value
        {
          if j > 0 {
            var q := Property(path, fs, props[1..][j - 1]);
            assert props[j] == props[1..][j - 1];
            assert q.Ok? && forall x <- q.value :: x in rest.value;
          }
        }
      } else if here.Err? {
        assert !Property(path, fs, props[0]).Ok?;
      } else {
        assert rest.Err?;
        var j :| 0 <= j < |props[1..]| && !Property(path, fs, props[1..][j]).Ok?;
        assert props[1..][j] == props[j + 1];
        assert !Property(path, fs, props[j + 1]).Ok?;
      }
    }
  }

  /** The properties walk reports nothing but its entries' issues. */
  lemma {:induction false} PropertiesOnly(path: string, fs: seq<Field>, props: seq<Field>)
    ensures Properties(path, fs, props).Ok? ==> forall x <- Properties(path, fs, props).value ::
      exists j | 0 <= j < |props| :: Property(path, fs, props[j]).Ok? && x in Property(path, fs, props[j]).value
    decreases |props|
  {
    if |props| > 0 {
      var r := Properties(path, fs, props);
      var here := Property(path, fs, props[0]);
      var rest := Properties(path, fs, props[1..]);
      PropertiesOnly(path, fs, props[1..]);
      if r.Ok? {
        assert here.Ok? && rest.Ok? && r.value == here.value + rest.value;
        forall x | x in r.value
          ensures exists j | 0 <= j < |props| :: Property(path, fs, props[j]).Ok? && x in Property(path, fs, props[j]).value
        {
          if x !in here.value {
            var j :| 0 <= j < |props[1..]| && Property(path, fs, props[1..][j]).Ok? && x in Property(path, fs, props[1..][j]).value;
            assert props[1..][j] == props[j + 1];
          }
        }
      }
    }
  }

  /** The properties walk fails exactly when some entry's check fails, and
      otherwise reports every entry's issues and nothing else; an entry the
      object has, with an object schema, is validated at its member path. */
  lemma PropertiesPropagate(path: string, fs: seq<Field>, props: seq<Field>)
    ensures Properties(path, fs, props).Ok? <==>
      forall j | 0 <= j < |props| :: Property(path, fs, props[j]).Ok?
    ensures Properties(path, fs, props).Ok? ==> forall x <- Properties(path, fs, props).value ::
      exists j | 0 <= j < |props| :: Property(path, fs, props[j]).Ok? && x in Property(path, fs, props[j]).value
    ensures Properties(path, fs, props).Ok? ==>
      forall j | 0 <= j < |props| && Lookup(fs, props[j].key).Some? && props[j].value.Obj? ::
        ValidateValue(MemberPath(path, props[j].key), Lookup(fs, props[j].key).value, props[j].value.fields).Ok? &&
        forall x <- ValidateValue(MemberPath(path, props[j].key), Lookup(fs, props[j].key).value, props[j].value.fields).value ::
          x in Properties(path, fs, props).value
  {
    PropertiesCollect(path, fs, props);
    PropertiesOnly(path, fs, props);
    if Properties(path, fs, props).Ok? {
      forall j | 0 <= j < |props| && Lookup(fs, props[j].key).Some? && props[j].value.Obj?
        ensures ValidateValue(MemberPath(path, props[j].key), Lookup(fs, props[j].key).value, props[j].value.fields).Ok?
        ensures forall x <- ValidateValue(MemberPath(path, props[j].key), Lookup(fs, props[j].key).value, props[j].value.fields).value ::
          x in Properties(path, fs, props).value
      {
        assert Property(path, fs, props[j]) == ValidateValue(MemberPath(path, props[j].key), Lookup(fs, props[j].key).value, props[j].value.fields);
      }
    }
  }

  /** A failing item makes its array's validation fail, and each issue of an
      item is reported for the array. */
  lemma ItemIssuesReachArray(path: string, xs: seq<Json>, schema: seq<Field>, j: nat)
    requires j < |xs|
    requires KeywordsOf(schema).kind == "array" && KeywordsOf(schema).itemSchema.Some?
    ensures var item := ValidateValue(ItemPath(path, j), xs[j], KeywordsOf(schema).itemSchema.value);
      var whole := ValidateValue(path, Arr(xs), schema);
      (item.Err? ==> whole.Err?) && (item.Ok? && whole.Ok? ==> forall x <- item.value :: x in whole.value)
  {
    var k := KeywordsOf(schema);
    ArrayChecked(path, xs, schema);
    ItemsPropagate(path, xs, 0, k.itemSchema.value);
  }

  /** An object under an "object" schema is checked by its object checks. */
  lemma ObjectChecked(path: string, fs: seq<Field>, schema: seq<Field>)
    requires KeywordsOf(schema).kind == "object"
    ensures ValidateValue(path, Obj(fs), schema) == ObjectIssues(path, fs, KeywordsOf(schema))
  {
    assert ValidateValue(path, Obj(fs), schema) == Check(path, Obj(fs), KeywordsOf(schema));
  }

  /** An array under an "array" schema is checked by its array checks. */
  lemma ArrayChecked(path: string, xs: seq<Json>, schema: seq<Field>)
    requires KeywordsOf(schema).kind == "array"
    ensures ValidateValue(path, Arr(xs), schema) == ArrayIssues(path, xs, KeywordsOf(schema))
  {
    assert ValidateValue(path, Arr(xs), schema) == Check(path, Arr(xs), KeywordsOf(schema));
  }

  /** A failing property makes its object's validation fail, and each issue
      of a member listed under "properties" is reported for the object. */
  lemma MemberIssuesReachObject(path: string, fs: seq<Field>, schema: seq<Field>, j: nat)
    requires KeywordsOf(schema).kind == "object" && KeywordsOf(schema).properties.Some?
    requires j < |KeywordsOf(schema).properties.value|
    requires var prop := KeywordsOf(schema).properties.value[j];
      Lookup(fs, prop.key).Some? && prop.value.Obj?
    ensures var prop := KeywordsOf(schema).properties.value[j];
      var member := ValidateValue(MemberPath(path, prop.key), Lookup(fs, prop.key).value, prop.value.fields);
      var whole := ValidateValue(path, Obj(fs), schema);
      (member.Err? ==> whole.Err?) && (member.Ok? && whole.Ok? ==> forall x <- member.value :: x in whole.value)
  {
    var k := KeywordsOf(schema);
    var props := k.properties.value;
    var member := ValidateValue(MemberPath(path, props[j].key), Lookup(fs, props[j].key).value, props[j].value.fields);
    ObjectChecked(path, fs, schema);
    PropertiesPropagate(path, fs, props);
    assert member.Err? ==> Properties(path, fs, props).Err? by {
      if member.Err? {
        assert !Property(path, fs, props[j]).Ok?;
      }
    }
  }

  /** minLength and maxLength count bytes of the UTF-8 text; a present
      "enum" must list the string itself. */
  function StringIssues(path: string, s: string, k: Keywords): (r: seq<Issue>)
    ensures forall i :: 0 <= i < |r| ==> r[i].field == path
    ensures |r| <= 3
    ensures (exists i :: 0 <= i < |r| && r[i].problem.NotInEnum?) <==>
      (k.options.Some? && Str(s) !in k.options.value)
    ensures (exists i :: 0 <= i < |r| && r[i].problem.TooShort?) <==>
      (k.minLength.Some? && (Utf8.ByteLen(s) as real) < k.minLength.value)
    ensures (exists i :: 0 <= i < |r| && r[i].problem.TooLong?) <==>
      (k.maxLength.Some? && (Utf8.ByteLen(s) as real) > k.maxLength.value)
  {
    var n := Utf8.ByteLen(s) as real;
    var short := if k.minLength.Some? && n < k.minLength.value then [Issue(path, TooShort(GoInt.Int64OfFloat(k.minLength.value)))] else [];
    var long := if k.maxLength.Some? && n > k.maxLength.value then [Issue(path, TooLong(GoInt.Int64OfFloat(k.maxLength.value)))] else [];
    var listed := match k.options
      case Some(options) => if Str(s) in options then [] else [Issue(path, NotInEnum(options))]
      case None => [];
    var r := short + long + listed;
    assert (exists i :: 0 <= i < |r| && r[i].problem.TooShort?) <==> |short| > 0 by {
      if |short| > 0 {
        assert r[0] == short[0];
      } else {
        assert forall i :: 0 <= i < |r| ==> r[i] in long || r[i] in listed;
      }
    }
    assert (exists i :: 0 <= i < |r| && r[i].problem.TooLong?) <==> |long| > 0 by {
      if |long| > 0 {
        assert r[|short|] == long[0];
      } else {
        assert forall i :: 0 <= i < |r| ==> r[i] in short || r[i] in listed;
      }
    }
    assert (exists i :: 0 <= i < |r| && r[i].problem.NotInEnum?) <==> |listed| > 0 by {
      if |listed| > 0 {
        assert r[|short| + |long|] == listed[0];
      } else {
        assert forall i :: 0 <= i < |r| ==> r[i] in short || r[i] in long;
      }
    }
    r
  }

  /** minimum and maximum are inclusive bounds. */
  function NumberIssues(path: string, x: real, k: Keywords): (r: seq<Issue>)
    ensures forall i :: 0 <= i < |r| ==> r[i].field == path
    ensures |r| == 0 <==>
      (k.minimum.None? || k.minimum.value <= x) && (k.maximum.None? || x <= k.maximum.value)
  {
    (if k.minimum.Some? && x < k.minimum.value then [Issue(path, BelowMinimum(k.minimum.value))] else [])
    + (if k.maximum.Some? && x > k.maximum.value then [Issue(path, AboveMaximum(k.maximum.value))] else [])
  }

  /** A required name yields an issue exactly when the object lacks it. */
  lemma {:induction false} RequiredReportsMissing(path: string, fs: seq<Field>, names: seq<Json>, name: string)
    requires Required(path, fs, names).Ok?
    ensures Issue(MemberPath(path, name), MissingField) in Required(path, fs, names).value
      <==> Str(name) in names && name !in Keys(fs)
  {
    if |names| > 0 {
      var rest := names[1..];
      assert names == [names[0]] + rest;
      RequiredReportsMissing(path, fs, rest, name);
      MemberPathInjective(path, names[0].s, name);
    }
  }

  // ---------------------------------------------------------------------------
  // Inference
  // ---------------------------------------------------------------------------

  /** generateSchemaFromValue: the type of the value; an array's items from
      its first element ({} when empty); an object's properties member by
      member and, when it has members, all its keys in ascending order as
      "required". */
  function Infer(v: Json): (s: Json)
    ensures s.Obj?
    decreases Size(v), 1
  {
    match v
    case Null => TypeOnly("null")
    case Bool(_) => TypeOnly("boolean")
    case Num(n) => TypeOnly(if IsInteger(n) then "integer" else "number")
    case Str(_) => TypeOnly("string")
    case Arr(xs) =>
      var items := if |xs| > 0 then Infer(xs[0]) else Obj([]);
      TwoFields("items", items, "type", Str("array"))
    case Obj(fs) =>
      var props := InferFields(fs);
      if |fs| == 0 then TwoFields("properties", Obj(props), "type", Str("object"))
      else
        assert Less("properties", "required") && Less("required", "type");
        Obj([Field("properties", Obj(props)), Field("required", Arr(KeyNames(fs))), Field("type", Str("object"))])
  }

  function TypeOnly(t: string): (s: Json)
    ensures s == Obj([Field("type", Str(t))]) && WellFormed(s)
  {
    Obj([Field("type", Str(t))])
  }

  /** A two-member object, keys in ascending order. */
  function TwoFields(k1: string, v1: Json, k2: string, v2: Json): (s: Json)
    requires Less(k1, k2)
    ensures s == Obj([Field(k1, v1), Field(k2, v2)])
  {
    Obj([Field(k1, v1), Field(k2, v2)])
  }

  /** The property schemas of an object's members, under the same keys. */
  function InferFields(fs: seq<Field>): (r: seq<Field>)
    ensures |r| == |fs|
    ensures forall i :: 0 <= i < |fs| ==> r[i] == Field(fs[i].key, Infer(fs[i].value))
    ensures Ascending(fs) ==> Ascending(r)
    decreases SizeFields(fs), 0
  {
    if |fs| == 0 then []
    else
      var rest := InferFields(fs[1..]);
      assert forall i :: 1 <= i < |fs| ==> fs[i] == fs[1..][i - 1];
      [Field(fs[0].key, Infer(fs[0].value))] + rest
  }

  /** An object's keys, as the strings of "required". */
  function KeyNames(fs: seq<Field>): (r: seq<Json>)
    ensures |r| == |fs|
    ensures forall i :: 0 <= i < |fs| ==> r[i] == Str(fs[i].key)
  {
    if |fs| == 0 then [] else [Str(fs[0].key)] + KeyNames(fs[1..])
  }

  /** The shape an inferred schema can describe: every array's items
      infer the same schema as its first item, at every depth. */
  predicate Uniform(v: Json)
    decreases Size(v)
  {
    match v
    case Arr(xs) => forall i :: 0 <= i < |xs| ==> Infer(xs[i]) == Infer(xs[0]) && Uniform(xs[i])
    case Obj(fs) => forall i :: 0 <= i < |fs| ==> Uniform(fs[i].value)
    case _ => true
  }

  /** Member lookup in the literal objects Infer builds. */
  lemma Lookup1(k1: string, v1: Json, k: string)
    ensures Lookup([Field(k1, v1)], k) == if k == k1 then Some(v1) else None
  {
    if k != k1 {
      assert [Field(k1, v1)][1..] == [];
    }
  }

  lemma Lookup2(k1: string, v1: Json, k2: string, v2: Json, k: string)
    ensures Lookup([Field(k1, v1), Field(k2, v2)], k)
      == if k == k1 then Some(v1) else if k == k2 then Some(v2) else None
  {
    if k != k1 {
      assert [Field(k1, v1), Field(k2, v2)][1..] == [Field(k2, v2)];
      Lookup1(k2, v2, k);
    }
  }

  lemma Lookup3(k1: string, v1: Json, k2: string, v2: Json, k3: string, v3: Json, k: string)
    ensures Lookup([Field(k1, v1), Field(k2, v2), Field(k3, v3)], k)
      == if k == k1 then Some(v1) else if k == k2 then Some(v2) else if k == k3 then Some(v3) else None
  {
    if k != k1 {
      assert [Field(k1, v1), Field(k2, v2), Field(k3, v3)][1..] == [Field(k2, v2), Field(k3, v3)];
      Lookup2(k2, v2, k3, v3, k);
    }
  }

  /** The keywords of an inferred schema: its type, and "items",
      "properties" and "required" where Infer writes them; no bound and no
      "enum". */
  lemma InferKeywords(v: Json)
    ensures KeywordsOf(Infer(v).fields) == NoKeywords.(
      kind := match v
        case Null => "null" case Bool(_) => "boolean" case Str(_) => "string"
        case Num(n) => if IsInteger(n) then "integer" else "number"
        case Arr(_) => "array" case Obj(_) => "object",
      required := if v.Obj? && |v.fields| > 0 then Some(KeyNames(v.fields)) else None,
      properties := if v.Obj? then Some(InferFields(v.fields)) else None,
      itemSchema := if v.Arr? then Some(if |v.items| > 0 then Infer(v.items[0]).fields else []) else None)
  {
    match v
    case Arr(xs) =>
      ArrayKeywords(if |xs| > 0 then Infer(xs[0]) else Obj([]));
    case Obj(fs) =>
      if |fs| == 0 {
        ObjectKeywords(InferFields(fs));
      } else {
        RequiringObjectKeywords(InferFields(fs), KeyNames(fs));
      }
    case Null => TypeOnlyKeywords("null");
    case Bool(_) => TypeOnlyKeywords("boolean");
    case Num(n) => TypeOnlyKeywords(if IsInteger(n) then "integer" else "number");
    case Str(_) => TypeOnlyKeywords("string");
  }

  lemma TypeOnlyKeywords(t: string)
    ensures KeywordsOf(TypeOnly(t).fields) == NoKeywords.(kind := t)
  {
    forall k | k in KeywordNames ensures Lookup(TypeOnly(t).fields, k) == if k == "type" then Some(Str(t)) else None {
      Lookup1("type", Str(t), k);
    }
  }

  lemma ArrayKeywords(items: Json)
    requires items.Obj?
    ensures KeywordsOf([Field("items", items), Field("type", Str("array"))])
      == NoKeywords.(kind := "array", itemSchema := Some(items.fields))
  {
    var schema := [Field("items", items), Field("type", Str("array"))];
    forall k | k in KeywordNames ensures Lookup(schema, k) == if k == "items" then Some(items) else if k == "type" then Some(Str("array")) else None {
      Lookup2("items", items, "type", Str("array"), k);
    }
  }

  lemma ObjectKeywords(props: seq<Field>)
    ensures KeywordsOf([Field("properties", Obj(props)), Field("type", Str("object"))])
      == NoKeywords.(kind := "object", properties := Some(props))
  {
    var schema := [Field("properties", Obj(props)), Field("type", Str("object"))];
    forall k | k in KeywordNames ensures Lookup(schema, k) == if k == "properties" then Some(Obj(props)) else if k == "type" then Some(Str("object")) else None {
      Lookup2("properties", Obj(props), "type", Str("object"), k);
    }
  }

  lemma RequiringObjectKeywords(props: seq<Field>, names: seq<Json>)
    ensures KeywordsOf([Field("properties", Obj(props)), Field("required", Arr(names)), Field("type", Str("object"))])
      == NoKeywords.(kind := "object", required := Some(names), properties := Some(props))
  {
    var schema := [Field("properties", Obj(props)), Field("required", Arr(names)), Field("type", Str("object"))];
    forall k | k in KeywordNames ensures Lookup(schema, k) ==
      if k == "properties" then Some(Obj(props)) else if k == "required" then Some(Arr(names))
      else if k == "type" then Some(Str("object")) else None {
      Lookup3("properties", Obj(props), "required", Arr(names), "type", Str("object"), k);
    }
  }

  /** An inferred schema is a canonical object with a "type" member, so it
      passes the schema check of Update. */
  lemma {:induction false} InferWellFormed(v: Json)
    requires WellFormed(v)
    ensures WellFormed(Infer(v))
    decreases Size(v), 1
  {
    match v
    case Arr(xs) =>
      if |xs| > 0 {
        InferWellFormed(xs[0]);
      }
      assert Less("items", "type");
    case Obj(fs) =>
      ObjectSchemaWellFormed(fs);
    case _ =>
  }

  /** Every inferred schema names a type. */
  lemma InferTyped(v: Json)
    ensures SchemaType(Infer(v).fields) != ""
  {
    InferKeywords(v);
    assert SchemaType(Infer(v).fields) == KeywordsOf(Infer(v).fields).kind;
  }

  lemma {:induction false} ObjectSchemaWellFormed(fs: seq<Field>)
    requires WellFormed(Obj(fs))
    ensures WellFormed(Infer(Obj(fs)))
    decreases 1 + SizeFields(fs), 0
  {
    var props := InferFields(fs);
    forall i | 0 <= i < |props| ensures WellFormed(props[i].value) {
      InferWellFormed(fs[i].value);
    }
    assert WellFormed(Obj(props));
    assert Less("properties", "required") && Less("required", "type") && Less("properties", "type");
    var req := KeyNames(fs);
    assert WellFormed(Arr(req));
  }

  /** A document of uniform shape satisfies the schema inferred from it. */
  lemma {:induction false} InferredSchemaAccepts(path: string, v: Json)
    requires WellFormed(v) && Uniform(v)
    ensures ValidateValue(path, v, Infer(v).fields) == Ok([])
    decreases Size(v), 3
  {
    match v
    case Arr(xs) =>
      ArrayAccepts(path, xs);
    case Obj(fs) =>
      ObjectAccepts(path, fs);
    case _ =>
      InferKeywords(v);
      ScalarClean(path, v, Infer(v).fields);
  }

  /** A scalar passes a schema that only names a type admitting it. */
  lemma ScalarClean(path: string, v: Json, schema: seq<Field>)
    requires !v.Arr? && !v.Obj?
    requires KeywordsOf(schema) == NoKeywords.(kind := SchemaType(schema))
    requires Admits(SchemaType(schema), v)
    ensures ValidateValue(path, v, schema) == Ok([])
  {
    var k := KeywordsOf(schema);
    TypeCheckAdmits(k.kind, v);
    assert ValidateValue(path, v, schema) == Check(path, v, k);
    match v
    case Num(n) =>
      assert Check(path, v, k) == Ok(NumberIssues(path, n, k));
    case Str(x) =>
      assert Check(path, v, k) == Ok(StringIssues(path, x, k));
    case _ =>
  }

  lemma {:induction false} ArrayAccepts(path: string, xs: seq<Json>)
    requires WellFormed(Arr(xs)) && Uniform(Arr(xs))
    ensures ValidateValue(path, Arr(xs), Infer(Arr(xs)).fields) == Ok([])
    decreases 1 + SizeItems(xs), 2
  {
    var itemSchema := if |xs| > 0 then Infer(xs[0]).fields else [];
    InferKeywords(Arr(xs));
    if |xs| > 0 {
      UniformItemsAccepted(path, xs);
    }
    ArrayOfItems(path, Arr(xs).items, Infer(Arr(xs)).fields, itemSchema);
  }

  lemma {:induction false} UniformItemsAccepted(path: string, xs: seq<Json>)
    requires WellFormed(Arr(xs)) && Uniform(Arr(xs)) && |xs| > 0
    ensures Items(path, xs, 0, Infer(xs[0]).fields) == Ok([])
    decreases 1 + SizeItems(xs), 1
  {
    var itemSchema := Infer(xs[0]).fields;
    forall j | 0 <= j < |xs| ensures ValidateValue(ItemPath(path, j), xs[j], itemSchema) == Ok([]) {
      InferredSchemaAccepts(ItemPath(path, j), xs[j]);
    }
    ItemsAccepted(path, xs, 0, itemSchema);
  }

  /** Against a schema naming only the array type and the items, an array
      gets exactly the issues of its items. */
  lemma ArrayOfItems(path: string, xs: seq<Json>, schema: seq<Field>, itemSchema: seq<Field>)
    requires KeywordsOf(schema) == NoKeywords.(kind := "array", itemSchema := Some(itemSchema))
    ensures ValidateValue(path, Arr(xs), schema) == Items(path, xs, 0, itemSchema)
  {
    var k := KeywordsOf(schema);
    assert ValidateValue(path, Arr(xs), schema) == Check(path, Arr(xs), k);
    assert Check(path, Arr(xs), k) == ArrayIssues(path, xs, k);
    var items := Items(path, xs, 0, itemSchema);
    if items.Ok? {
      var none: seq<Issue> := [];
      assert k.minItems.None? && k.maxItems.None?;
      assert k.itemSchema == Some(itemSchema);
      assert CountIssues(path, |xs|, k) == none;
      assert ArrayIssues(path, xs, k) == Ok(none + items.value);
      assert none + items.value == items.value;
    }
  }

  lemma {:induction false} ObjectAccepts(path: string, fs: seq<Field>)
    requires WellFormed(Obj(fs)) && Uniform(Obj(fs))
    ensures ValidateValue(path, Obj(fs), Infer(Obj(fs)).fields) == Ok([])
    decreases 1 + SizeFields(fs), 2
  {
    InferKeywords(Obj(fs));
    MembersAccepted(path, fs);
    if |fs| > 0 {
      KeysRequired(path, fs);
    }
    ObjectClean(path, fs, KeywordsOf(Infer(Obj(fs)).fields));
  }

  /** An object passes an object schema whose required names and properties
      raise nothing. */
  lemma ObjectClean(path: string, fs: seq<Field>, k: Keywords)
    requires k.kind == "object"
    requires k.required.Some? ==> Required(path, fs, k.required.value) == Ok([])
    requires k.properties.Some? ==> Properties(path, fs, k.properties.value) == Ok([])
    ensures Check(path, Obj(fs), k) == Ok([])
  {
    var none: seq<Issue> := [];
    assert none + none == none;
  }

  lemma KeysRequired(path: string, fs: seq<Field>)
    ensures Required(path, fs, KeyNames(fs)) == Ok([])
  {
    forall i | 0 <= i < |fs| ensures fs[i].key in Keys(fs) {
    }
    RequiredAllPresent(path, fs, KeyNames(fs));
  }

  lemma {:induction false} MembersAccepted(path: string, fs: seq<Field>)
    requires WellFormed(Obj(fs)) && Uniform(Obj(fs))
    ensures Properties(path, fs, InferFields(fs)) == Ok([])
    decreases 1 + SizeFields(fs), 0
  {
    var props := InferFields(fs);
    forall j | 0 <= j < |props| ensures Property(path, fs, props[j]) == Ok([]) {
      LookupAt(fs, j);
      InferredSchemaAccepts(MemberPath(path, fs[j].key), fs[j].value);
    }
    PropertiesAccepted(path, fs, props);
  }

  lemma {:induction false} ItemsAccepted(path: string, xs: seq<Json>, i: nat, itemSchema: seq<Field>)
    requires i <= |xs|
    requires forall j :: i <= j < |xs| ==> ValidateValue(ItemPath(path, j), xs[j], itemSchema) == Ok([])
    ensures Items(path, xs, i, itemSchema) == Ok([])
    decreases |xs| - i
  {
    if i < |xs| {
      ItemsAccepted(path, xs, i + 1, itemSchema);
      var here := ValidateValue(ItemPath(path, i), xs[i], itemSchema);
      var rest := Items(path, xs, i + 1, itemSchema);
      assert here == Ok([]) && rest == Ok([]);
      assert here.value + rest.value == [];
    }
  }

  lemma {:induction false} PropertiesAccepted(path: string, fs: seq<Field>, props: seq<Field>)
    requires forall j :: 0 <= j < |props| ==> Property(path, fs, props[j]) == Ok([])
    ensures Properties(path, fs, props) == Ok([])
  {
    if |props| > 0 {
      assert forall j :: 1 <= j < |props| ==> props[j] == props[1..][j - 1];
      PropertiesAccepted(path, fs, props[1..]);
      var here := Property(path, fs, props[0]);
      assert here.value + [] == [];
    }
  }

  lemma {:induction false} RequiredAllPresent(path: string, fs: seq<Field>, names: seq<Json>)
    requires forall i :: 0 <= i < |names| ==> names[i].Str? && names[i].s in Keys(fs)
    ensures Required(path, fs, names) == Ok([])
  {
    if |names| > 0 {
      assert forall i :: 1 <= i < |names| ==> names[i] == names[1..][i - 1];
      RequiredAllPresent(path, fs, names[1..]);
    }
  }

  // ---------------------------------------------------------------------------
  // The service
  // ---------------------------------------------------------------------------

  const Draft07 := "http://json-schema.org/draft-07/schema#"

  /** Get: the stored schema text; none stored is an error of its own. */
  function Get(db: Db, configId: int): (r: Result<string, Error>)
    ensures ConfigRepo.GetByID(db.configs, configId).None? <==> r == Err(ConfigNotFound)
    ensures r == Err(SchemaNotFound) <==>
      ConfigRepo.GetByID(db.configs, configId).Some? && ConfigRepo.GetByID(db.configs, configId).value.schemaJson == ""
    ensures r.Ok? ==> r.value != "" && r.value == ConfigRepo.GetByID(db.configs, configId).value.schemaJson
  {
    match ConfigRepo.GetByID(db.configs, configId)
    case None => Err(ConfigNotFound)
    case Some(c) => if c.schemaJson == "" then Err(SchemaNotFound) else Ok(c.schemaJson)
  }

  /** validateSchema: a JSON object (or null) with a "type" member, of any
      value. */
  function CheckSchema(lib: Library, text: string): (r: Option<Error>)
    ensures ParseObject(lib, text).None? <==> r == Some(InvalidSchema)
    ensures r.None? <==> ParseObject(lib, text).Some? && "type" in Keys(EntriesOf(ParseObject(lib, text).value))
    ensures r.Some? ==> r.value in {InvalidSchema, SchemaMissingType}
  {
    match ParseObject(lib, text)
    case None => Some(InvalidSchema)
    case Some(m) => if Lookup(EntriesOf(m), "type").None? then Some(SchemaMissingType) else None
  }

  /** Update: the configuration's schema text is replaced once it passes
      the check. */
  function Update(db: Db, lib: Library, configId: int, schema: string): (o: Outcome<()>)
    ensures o.result.Err? ==> o.db == db
    ensures ConfigRepo.GetByID(db.configs, configId).None? <==> o.result == Err(ConfigNotFound)
    ensures ConfigRepo.GetByID(db.configs, configId).Some? ==>
      && (o.result.Err? <==> CheckSchema(lib, schema).Some?)
      && (o.result.Err? ==> o.result.error == CheckSchema(lib, schema).value)
  {
    match ConfigRepo.GetByID(db.configs, configId)
    case None => Outcome(db, Err(ConfigNotFound))
    case Some(c) =>
      match CheckSchema(lib, schema)
      case Some(e) => Outcome(db, Err(e))
      case None => Outcome(db.(configs := ConfigRepo.Update(db.configs, c.(schemaJson := schema))), Ok(()))
  }

  /** Reading a schema back after a successful Update gives the new text. */
  lemma UpdateThenGet(db: Db, lib: Library, configId: int, schema: string)
    requires Update(db, lib, configId, schema).result.Ok?
    ensures Get(Update(db, lib, configId, schema).db, configId)
      == if schema == "" then Err(SchemaNotFound) else Ok(schema)
  {
    var c := ConfigRepo.GetByID(db.configs, configId).value;
    SavedIsFound(db.configs, c.(schemaJson := schema));
  }

  lemma UpdateKeepsGood(db: Db, lib: Library, configId: int, schema: string)
    requires Good(db)
    ensures Good(Update(db, lib, configId, schema).db)
  {
    if Update(db, lib, configId, schema).result.Ok? {
      var c := ConfigRepo.GetByID(db.configs, configId).value;
      var k := ConfigIndex(db.configs, c);
      SaveKeepsGood(db, k, c.(schemaJson := schema));
    }
  }

  /** A row saved over a stored id is what a lookup by that id finds. */
  lemma SavedIsFound(cs: seq<Config>, c: Config)
    requires exists i :: 0 <= i < |cs| && cs[i].id == c.id
    ensures ConfigRepo.GetByID(ConfigRepo.Update(cs, c), c.id) == Some(c)
  {
    var cs' := ConfigRepo.Update(cs, c);
    var i :| 0 <= i < |cs| && cs[i].id == c.id;
    assert cs'[i] == c;
    var r := ConfigRepo.GetByID(cs', c.id);
    var j :| 0 <= j < |cs'| && cs'[j] == r.value;
  }

  /** The inferred schema of a document, marked as draft 7. The "$schema"
      key sorts before every key Infer writes. */
  function Draft(data: Value): (s: Value)
    ensures s.Obj? && |s.fields| > 0 && s.fields[0] == Field("$schema", Str(Draft07))
  {
    InferWellFormed(data);
    InferTyped(data);
    var fs := Infer(data).fields;
    assert Less("$schema", fs[0].key);
    AscendingCons(Field("$schema", Str(Draft07)), fs);
    var gs := [Field("$schema", Str(Draft07))] + fs;
    assert forall i :: 1 <= i < |gs| ==> gs[i] == fs[i - 1];
    assert WellFormed(Obj(gs));
    Obj(gs)
  }

  /** An inferred schema holds no number, so every library can hold it. */
  lemma {:induction false} InferHeld(v: Json, number: real -> bool)
    ensures NumbersIn(Infer(v), number)
    decreases Size(v), 2
  {
    match v
    case Arr(xs) =>
      if |xs| > 0 {
        InferHeld(xs[0], number);
      }
    case Obj(fs) => ObjectSchemaHeld(fs, number);
    case _ =>
  }

  lemma {:induction false} ObjectSchemaHeld(fs: seq<Field>, number: real -> bool)
    ensures NumbersIn(Infer(Obj(fs)), number)
    decreases 1 + SizeFields(fs), 1
  {
    var props := Obj(InferFields(fs));
    var req := Arr(KeyNames(fs));
    PropertiesHeld(fs, number);
    KeyNamesHeld(fs, number);
    if |fs| == 0 {
      ObjectSchemaShape(fs);
      PairHeld("properties", props, "type", Str("object"), number);
    } else {
      RequiringSchemaShape(fs);
      TripleHeld("properties", props, "required", req, "type", Str("object"), number);
    }
  }

  lemma {:induction false} PropertiesHeld(fs: seq<Field>, number: real -> bool)
    ensures NumbersIn(Obj(InferFields(fs)), number)
    decreases 1 + SizeFields(fs), 0
  {
    var props := InferFields(fs);
    forall i | 0 <= i < |props| ensures NumbersIn(props[i].value, number) {
      InferHeld(fs[i].value, number);
    }
  }

  lemma KeyNamesHeld(fs: seq<Field>, number: real -> bool)
    ensures NumbersIn(Arr(KeyNames(fs)), number)
  {
    var req := KeyNames(fs);
    forall i | 0 <= i < |req| ensures NumbersIn(req[i], number) {
      assert req[i] == Str(fs[i].key);
    }
  }

  lemma PairHeld(k1: string, v1: Json, k2: string, v2: Json, number: real -> bool)
    requires NumbersIn(v1, number) && NumbersIn(v2, number)
    ensures NumbersIn(Obj([Field(k1, v1), Field(k2, v2)]), number)
  {
  }

  lemma TripleHeld(k1: string, v1: Json, k2: string, v2: Json, k3: string, v3: Json, number: real -> bool)
    requires NumbersIn(v1, number) && NumbersIn(v2, number) && NumbersIn(v3, number)
    ensures NumbersIn(Obj([Field(k1, v1), Field(k2, v2), Field(k3, v3)]), number)
  {
  }

  /** The inferred schema of an empty object. */
  lemma ObjectSchemaShape(fs: seq<Field>)
    requires |fs| == 0
    ensures Infer(Obj(fs)) == Obj([Field("properties", Obj(InferFields(fs))), Field("type", Str("object"))])
  {
  }

  /** The inferred schema of an object with members. */
  lemma RequiringSchemaShape(fs: seq<Field>)
    requires |fs| > 0
    ensures Infer(Obj(fs)) ==
      Obj([Field("properties", Obj(InferFields(fs))), Field("required", Arr(KeyNames(fs))), Field("type", Str("object"))])
  {
  }

  lemma DraftHeld(data: Value, number: real -> bool)
    ensures NumbersIn(Draft(data), number)
  {
    InferHeld(data, number);
    var gs := Draft(data).fields;
    assert forall i :: 1 <= i < |gs| ==> gs[i] == Infer(data).fields[i - 1];
  }

  /** Generate: infer a schema from the latest version's content, save its
      indented text as the configuration's schema and return it. */
  function Generate(db: Db, lib: Library, configId: int): (o: Outcome<string>)
    ensures o.result.Err? ==> o.db == db
    ensures ConfigRepo.GetByID(db.configs, configId).None? <==> o.result == Err(ConfigNotFound)
    ensures ConfigRepo.GetByID(db.configs, configId).Some? ==>
      var latest := VersionRepo.GetLatest(db.versions, configId);
      && (latest.None? <==> o.result == Err(ConfigContentUnavailable))
      && (latest.Some? ==>
            && (lib.parse(latest.value.content).None? <==> o.result == Err(ConfigContentNotJson))
            && (o.result.Ok? ==> o.result.value == lib.marshalIndent(Draft(lib.parse(latest.value.content).value))))
    ensures o.result.Ok? ==>
      o.db == db.(configs := ConfigRepo.Update(db.configs,
        ConfigRepo.GetByID(db.configs, configId).value.(schemaJson := o.result.value)))
  {
    match ConfigRepo.GetByID(db.configs, configId)
    case None => Outcome(db, Err(ConfigNotFound))
    case Some(c) =>
      match VersionRepo.GetLatest(db.versions, configId)
      case None => Outcome(db, Err(ConfigContentUnavailable))
      case Some(v) =>
        match lib.parse(v.content)
        case None => Outcome(db, Err(ConfigContentNotJson))
        case Some(data) =>
          var text := lib.marshalIndent(Draft(data));
          Outcome(db.(configs := ConfigRepo.Update(db.configs, c.(schemaJson := text))), Ok(text))
  }

  lemma GenerateKeepsGood(db: Db, lib: Library, configId: int)
    requires Good(db)
    ensures Good(Generate(db, lib, configId).db)
  {
    var o := Generate(db, lib, configId);
    if o.result.Ok? {
      var c := ConfigRepo.GetByID(db.configs, configId).value;
      var k := ConfigIndex(db.configs, c);
      SaveKeepsGood(db, k, c.(schemaJson := o.result.value));
    }
  }

  /** A generated schema passes the check Update applies. */
  lemma GeneratedPassesCheck(db: Db, lib: Library, configId: int)
    requires LawfulIndent(lib)
    requires Generate(db, lib, configId).result.Ok?
    ensures CheckSchema(lib, Generate(db, lib, configId).result.value).None?
  {
    var v := VersionRepo.GetLatest(db.versions, configId).value;
    var data := lib.parse(v.content).value;
    var fs := Infer(data).fields;
    InferTyped(data);
    DraftHeld(data, lib.number);
    assert lib.parse(lib.marshalIndent(Draft(data))) == Some(Draft(data));
    var gs := Draft(data).fields;
    assert gs[1..] == fs;
    assert Lookup(gs, "type") == Lookup(fs, "type");
  }

  /** The "$schema" member plays no part in validation. */
  lemma DraftKeyIgnored(path: string, v: Json, fs: seq<Field>, x: Json)
    ensures ValidateValue(path, v, [Field("$schema", x)] + fs) == ValidateValue(path, v, fs)
  {
    var gs := [Field("$schema", x)] + fs;
    forall k | k in KeywordNames ensures Lookup(gs, k) == Lookup(fs, k) {
      LookupPastHead(Field("$schema", x), fs, k);
    }
    SameKeywords(gs, fs);
    assert ValidateValue(path, v, gs) == Check(path, v, KeywordsOf(gs));
    assert ValidateValue(path, v, fs) == Check(path, v, KeywordsOf(fs));
  }

  /** Validate: content that is not JSON is a failed validation, not an
      error; a schema that does not decode as an object is an error. */
  function Validate(lib: Library, schema: string, content: string): (r: Result<Validation, Error>)
    ensures r.Ok? ==> (r.value.valid <==> |r.value.issues| == 0)
    ensures lib.parse(content).None? ==> r == Ok(Validation(false, [Issue("", NotJson)]))
    ensures lib.parse(content).Some? && ParseObject(lib, schema).None? ==> r == Err(InvalidSchema)
    ensures r.Err? ==> r.error in {InvalidSchema, Panic}
    ensures lib.parse(content).Some? && ParseObject(lib, schema).Some? ==>
      var v := ValidateValue("", lib.parse(content).value, EntriesOf(ParseObject(lib, schema).value));
      (r.Err? <==> v.Err?) && (v.Ok? ==> r.value.issues == v.value)
  {
    match lib.parse(content)
    case None => Ok(Validation(false, [Issue("", NotJson)]))
    case Some(data) =>
      match ParseObject(lib, schema)
      case None => Err(InvalidSchema)
      case Some(m) =>
        match ValidateValue("", data, EntriesOf(m))
        case Err(e) => Err(e)
        case Ok(issues) => Ok(if |issues| > 0 then Validation(false, issues) else Validation(true, []))
  }

  /** ValidateConfig: a configuration without a schema always validates. */
  function ValidateConfig(db: Db, lib: Library, configId: int, content: string): (r: Result<Validation, Error>)
    ensures Get(db, configId) == Err(SchemaNotFound) ==> r == Ok(Validation(true, []))
    ensures ConfigRepo.GetByID(db.configs, configId).None? ==> r == Err(ConfigNotFound)
    ensures Get(db, configId).Ok? ==> r == Validate(lib, Get(db, configId).value, content)
  {
    match Get(db, configId)
    case Err(SchemaNotFound) => Ok(Validation(true, []))
    case Err(e) => Err(e)
    case Ok(schema) => Validate(lib, schema, content)
  }

  /** Generating a schema from a configuration's latest content and then
      validating that content against the configuration succeeds, whenever
      every array in it is uniform. */
  lemma GenerateThenValidate(db: Db, lib: Library, configId: int)
    requires LawfulIndent(lib)
    requires Generate(db, lib, configId).result.Ok?
    requires Uniform(lib.parse(VersionRepo.GetLatest(db.versions, configId).value.content).value)
    ensures var content := VersionRepo.GetLatest(db.versions, configId).value.content;
      ValidateConfig(Generate(db, lib, configId).db, lib, configId, content) == Ok(Validation(true, []))
  {
    var o := Generate(db, lib, configId);
    var c := ConfigRepo.GetByID(db.configs, configId).value;
    var content := VersionRepo.GetLatest(db.versions, configId).value.content;
    var data := lib.parse(content).value;
    var text := o.result.value;
    SavedIsFound(db.configs, c.(schemaJson := text));
    if text != "" {
      assert Get(o.db, configId) == Ok(text);
      DraftHeld(data, lib.number);
      assert lib.parse(text) == Some(Draft(data));
      var fs := Infer(data).fields;
      InferWellFormed(data);
      InferredSchemaAccepts("", data);
      DraftKeyIgnored("", data, fs, Str(Draft07));
      assert ParseObject(lib, text) == Some(Some([Field("$schema", Str(Draft07))] + fs));
    }
  }

  /** Items are checked against the schema of the first: a later item of
      another kind is reported at its index. */
  lemma FirstItemDecides()
    ensures var doc := Arr([Num(1.0), Str("a")]);
      ValidateValue("", doc, Infer(doc).fields) == Ok([Issue("[1]", TypeMismatch("integer", "string"))])
  {
    var doc := Arr([Num(1.0), Str("a")]);
    var itemSchema := Infer(Num(1.0)).fields;
    assert IsInteger(1.0);
    InferKeywords(doc);
    InferKeywords(Num(1.0));
    var k := KeywordsOf(Infer(doc).fields);
    assert k == NoKeywords.(kind := "array", itemSchema := Some(itemSchema));
    IntegerThenString(itemSchema);
    ArrayOfItems("", doc.items, Infer(doc).fields, itemSchema);
  }

  /** The items of `[1, "a"]` against an integer schema. */
  lemma IntegerThenString(itemSchema: seq<Field>)
    requires KeywordsOf(itemSchema) == NoKeywords.(kind := "integer")
    ensures Items("", [Num(1.0), Str("a")], 0, itemSchema) == Ok([Issue("[1]", TypeMismatch("integer", "string"))])
  {
    var xs := [Num(1.0), Str("a")];
    var issue := Issue("[1]", TypeMismatch("integer", "string"));
    RootItemPath(1);
    assert SchemaType(itemSchema) == "integer";
    ScalarClean(ItemPath("", 0), Num(1.0), itemSchema);
    assert ValidateValue("[1]", Str("a"), itemSchema) == Ok([issue]);
    assert Items("", xs, 2, itemSchema) == Ok([]);
    assert [issue] + [] == [issue];
    assert Items("", xs, 1, itemSchema) == Ok([issue]);
    assert [] + [issue] == [issue];
  }

  lemma RootItemPath(i: nat)
    requires i < 10
    ensures ItemPath("", i) == ['[', "0123456789"[i], ']']
  {
  }
}
