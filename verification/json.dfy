/** Decoded JSON documents: what `json.Unmarshal` into `interface{}` produces
    (nil, bool, float64, string, []interface{}, map[string]interface{}).
    An object is kept as its fields in strictly ascending key order, so each Go
    map has exactly one representation and `==` on well-formed values is Go's
    reflect.DeepEqual. Numbers are reals: the IEEE rounding of float64 is not
    modelled. */
module JsonValue {
  import opened Wrappers
  import opened Text

  datatype Json =
    | Null
    | Bool(b: bool)
    | Num(n: real)
    | Str(s: string)
    | Arr(items: seq<Json>)
    | Obj(fields: seq<Field>)

  datatype Field = Field(key: string, value: Json)

  /** Keys strictly ascending, hence pairwise distinct. */
  predicate Ascending(fs: seq<Field>) {
    forall i, j :: 0 <= i < j < |fs| ==> Less(fs[i].key, fs[j].key)
  }

  /** Every object at every depth is in canonical form. */
  predicate WellFormed(j: Json) {
    match j
    case Arr(xs) => forall i :: 0 <= i < |xs| ==> WellFormed(xs[i])
    case Obj(fs) => Ascending(fs) && forall i :: 0 <= i < |fs| ==> WellFormed(fs[i].value)
    case _ => true
  }

  /** Fields of a well-formed object. */
  predicate WellFormedFields(fs: seq<Field>) {
    Ascending(fs) && forall i :: 0 <= i < |fs| ==> WellFormed(fs[i].value)
  }

  /** A decoded document: what the JSON library hands back. */
  type Value = j: Json | WellFormed(j) witness Null

  // ---------------------------------------------------------------------------
  // Sizes, for termination of the tree walks
  // ---------------------------------------------------------------------------

  function Size(j: Json): nat {
    match j
    case Arr(xs) => 1 + SizeItems(xs)
    case Obj(fs) => 1 + SizeFields(fs)
    case _ => 1
  }

  /** Every item is smaller than the items it belongs to. */
  function SizeItems(xs: seq<Json>): (n: nat)
    ensures forall i :: 0 <= i < |xs| ==> Size(xs[i]) < n
  {
    if |xs| == 0 then 0
    else
      var rest := SizeItems(xs[1..]);
      assert forall i :: 1 <= i < |xs| ==> xs[i] == xs[1..][i - 1];
      1 + Size(xs[0]) + rest
  }

  /** Every field's value is smaller than the fields it belongs to. */
  function SizeFields(fs: seq<Field>): (n: nat)
    ensures forall i :: 0 <= i < |fs| ==> Size(fs[i].value) < n
  {
    if |fs| == 0 then 0
    else
      var rest := SizeFields(fs[1..]);
      assert forall i :: 1 <= i < |fs| ==> fs[i] == fs[1..][i - 1];
      1 + Size(fs[0].value) + rest
  }

  lemma SizePositive(j: Json)
    ensures Size(j) >= 1
  {
  }

  // ---------------------------------------------------------------------------
  // Object fields as a finite map
  // ---------------------------------------------------------------------------

  function Keys(fs: seq<Field>): set<string> {
    set i | 0 <= i < |fs| :: fs[i].key
  }

  /** The dotted path of a member below `path`; the bare key at the root. */
  function MemberPath(path: string, key: string): string {
    if path == "" then key else path + "." + key
  }

  /** `v, ok := m[k]` */
  function Lookup(fs: seq<Field>, k: string): (r: Option<Json>)
    ensures r.Some? <==> k in Keys(fs)
    ensures r.Some? ==> exists i :: 0 <= i < |fs| && fs[i] == Field(k, r.value)
  {
    if |fs| == 0 then None
    else if fs[0].key == k then Some(fs[0].value)
    else
      var r := Lookup(fs[1..], k);
      assert Keys(fs) == {fs[0].key} + Keys(fs[1..]) by {
        forall x | x in Keys(fs) ensures x in {fs[0].key} + Keys(fs[1..]) {
          var i :| 0 <= i < |fs| && fs[i].key == x;
          if i > 0 { assert fs[1..][i - 1].key == x; }
        }
      }
      assert r.Some? ==> (exists i :: 0 <= i < |fs| && fs[i] == Field(k, r.value)) by {
        if r.Some? {
          var i :| 0 <= i < |fs[1..]| && fs[1..][i] == Field(k, r.value);
          assert fs[i + 1] == Field(k, r.value);
        }
      }
      r
  }

  /** A value found in an object is smaller than the object's fields. */
  lemma LookupSmaller(fs: seq<Field>, k: string)
    ensures Lookup(fs, k).Some? ==> Size(Lookup(fs, k).value) < SizeFields(fs)
  {
    if Lookup(fs, k).Some? {
      var i :| 0 <= i < |fs| && fs[i] == Field(k, Lookup(fs, k).value);
    }
  }

  /** In canonical form a field is found at its own position. */
  lemma LookupAt(fs: seq<Field>, i: nat)
    requires Ascending(fs)
    requires i < |fs|
    ensures Lookup(fs, fs[i].key) == Some(fs[i].value)
  {
    if i > 0 {
      assert Less(fs[0].key, fs[i].key);
      LessIrreflexive(fs[0].key);
      assert Ascending(fs[1..]);
      LookupAt(fs[1..], i - 1);
    }
  }

  lemma AscendingTail(fs: seq<Field>)
    requires Ascending(fs) && |fs| > 0
    ensures Ascending(fs[1..])
  {
  }

  /** Prepending a field below every key keeps the order. */
  lemma AscendingCons(f: Field, fs: seq<Field>)
    requires Ascending(fs)
    requires |fs| == 0 || Less(f.key, fs[0].key)
    ensures Ascending([f] + fs)
  {
    var r := [f] + fs;
    forall i, j | 0 <= i < j < |r| ensures Less(r[i].key, r[j].key) {
      if i == 0 && j > 1 {
        LessTransitive(f.key, fs[0].key, fs[j - 1].key);
      }
    }
  }

  /** In canonical form the first key is below every other key. */
  lemma HeadBelowKeys(fs: seq<Field>, k: string)
    requires Ascending(fs) && |fs| > 0
    requires k in Keys(fs[1..])
    ensures Less(fs[0].key, k)
  {
    var i :| 0 <= i < |fs[1..]| && fs[1..][i].key == k;
    assert fs[i + 1].key == k;
  }

  /** A key below the first key of a canonical object is absent from it. */
  lemma BelowHeadAbsent(fs: seq<Field>, k: string)
    requires Ascending(fs) && |fs| > 0
    requires Less(k, fs[0].key)
    ensures k !in Keys(fs)
  {
    forall i | 0 <= i < |fs| ensures fs[i].key != k {
      if i > 0 {
        LessTransitive(k, fs[0].key, fs[i].key);
      }
      LessIrreflexive(k);
    }
  }

  /** The first key of a canonical object is not repeated after it. */
  lemma HeadNotInTail(fs: seq<Field>)
    requires Ascending(fs) && |fs| > 0
    ensures fs[0].key !in Keys(fs[1..])
  {
    forall i | 1 <= i < |fs| ensures fs[i].key != fs[0].key {
      LessIrreflexive(fs[0].key);
    }
  }

  /** The first key of a canonical object is its least key. */
  lemma HeadIsLeast(fs: seq<Field>, k: string)
    requires Ascending(fs)
    requires k in Keys(fs)
    ensures LessEq(fs[0].key, k)
  {
  }

  lemma KeysEmpty(fs: seq<Field>)
    ensures |fs| == 0 <==> Keys(fs) == {}
  {
    if |fs| > 0 {
      assert fs[0].key in Keys(fs);
    }
  }

  /** `m[k] = v` */
  function Put(fs: seq<Field>, k: string, v: Json): (r: seq<Field>)
    requires Ascending(fs)
    ensures Ascending(r)
    ensures Lookup(r, k) == Some(v)
    ensures forall k' :: k' != k ==> Lookup(r, k') == Lookup(fs, k')
    ensures |r| > 0 && (r[0].key == k || (|fs| > 0 && r[0] == fs[0]))
  {
    if |fs| == 0 then
      [Field(k, v)]
    else if fs[0].key == k then
      SetHead(fs, k, v);
      [Field(k, v)] + fs[1..]
    else if Less(k, fs[0].key) then
      SetFront(fs, k, v);
      [Field(k, v)] + fs
    else
      LessTotal(k, fs[0].key);
      var rest := Put(fs[1..], k, v);
      SetPast(fs, k, v, rest);
      [fs[0]] + rest
  }

  /** Put on an object whose first key is `k`: the first value is replaced. */
  lemma SetHead(fs: seq<Field>, k: string, v: Json)
    requires Ascending(fs) && |fs| > 0 && fs[0].key == k
    ensures var r := [Field(k, v)] + fs[1..];
      && Ascending(r) && Lookup(r, k) == Some(v)
      && forall k' :: k' != k ==> Lookup(r, k') == Lookup(fs, k')
  {
    AscendingCons(Field(k, v), fs[1..]);
    var r := [Field(k, v)] + fs[1..];
    assert r[1..] == fs[1..];
  }

  /** Put of a key below every key of the object: the field goes first. */
  lemma SetFront(fs: seq<Field>, k: string, v: Json)
    requires Ascending(fs) && (|fs| == 0 || Less(k, fs[0].key))
    ensures var r := [Field(k, v)] + fs;
      && Ascending(r) && Lookup(r, k) == Some(v)
      && forall k' :: k' != k ==> Lookup(r, k') == Lookup(fs, k')
  {
    AscendingCons(Field(k, v), fs);
    var r := [Field(k, v)] + fs;
    assert r[1..] == fs;
  }

  /** Put of a key above the first key: the first field stays in front of
      the tail's result. */
  lemma SetPast(fs: seq<Field>, k: string, v: Json, rest: seq<Field>)
    requires Ascending(fs) && |fs| > 0 && Less(fs[0].key, k)
    requires Ascending(rest) && Lookup(rest, k) == Some(v)
    requires forall k' :: k' != k ==> Lookup(rest, k') == Lookup(fs[1..], k')
    requires |rest| > 0 && (rest[0].key == k || (|fs| > 1 && rest[0] == fs[1]))
    ensures var r := [fs[0]] + rest;
      && Ascending(r) && Lookup(r, k) == Some(v)
      && forall k' :: k' != k ==> Lookup(r, k') == Lookup(fs, k')
  {
    if rest[0].key != k {
      assert Less(fs[0].key, fs[1].key);
    }
    AscendingCons(fs[0], rest);
    LessIrreflexive(k);
    var r := [fs[0]] + rest;
    assert r[1..] == rest;
  }

  lemma PutKeys(fs: seq<Field>, k: string, v: Json)
    requires Ascending(fs)
    ensures Keys(Put(fs, k, v)) == Keys(fs) + {k}
  {
    var r := Put(fs, k, v);
    forall x ensures x in Keys(r) <==> x in Keys(fs) + {k} {
      assert Lookup(r, x).Some? <==> x in Keys(r);
      assert Lookup(fs, x).Some? <==> x in Keys(fs);
    }
  }

  lemma PutWellFormed(fs: seq<Field>, k: string, v: Json)
    requires WellFormedFields(fs) && WellFormed(v)
    ensures WellFormedFields(Put(fs, k, v))
  {
    if |fs| > 0 && fs[0].key != k && !Less(k, fs[0].key) {
      PutWellFormed(fs[1..], k, v);
    }
  }

  /** Two canonical objects with the same entries are the same sequence,
      so DeepEqual on maps coincides with `==` here. */
  lemma {:induction false} Extensional(a: seq<Field>, b: seq<Field>)
    requires Ascending(a) && Ascending(b)
    requires forall k :: Lookup(a, k) == Lookup(b, k)
    ensures a == b
    decreases |a|
  {
    assert Keys(a) == Keys(b) by {
      forall k ensures k in Keys(a) <==> k in Keys(b) {
        assert Lookup(a, k) == Lookup(b, k);
      }
    }
    KeysEmpty(a);
    KeysEmpty(b);
    if |a| > 0 {
      assert a[0].key in Keys(a) && b[0].key in Keys(b);
      HeadIsLeast(a, b[0].key);
      HeadIsLeast(b, a[0].key);
      LessAsymmetric(a[0].key, b[0].key);
      LookupAt(a, 0);
      LookupAt(b, 0);
      assert a[0] == b[0];
      HeadNotInTail(a);
      HeadNotInTail(b);
      forall k ensures Lookup(a[1..], k) == Lookup(b[1..], k) {
        if k != a[0].key {
          assert Lookup(a, k) == Lookup(a[1..], k);
          assert Lookup(b, k) == Lookup(b[1..], k);
        }
      }
      Extensional(a[1..], b[1..]);
      assert a == [a[0]] + a[1..] && b == [b[0]] + b[1..];
    }
  }

  // ---------------------------------------------------------------------------
  // Dynamic types
  // ---------------------------------------------------------------------------

  /** The name the schema service gives each dynamic type. */
  function TypeName(j: Json): (t: string)
    ensures t in {"null", "boolean", "number", "string", "array", "object"}
  {
    match j
    case Null => "null"
    case Bool(_) => "boolean"
    case Num(_) => "number"
    case Str(_) => "string"
    case Arr(_) => "array"
    case Obj(_) => "object"
  }

  /** reflect.TypeOf(a) == reflect.TypeOf(b) on decoded values. */
  predicate SameType(a: Json, b: Json) {
    TypeName(a) == TypeName(b)
  }

  lemma SameTypeIsSameConstructor(a: Json, b: Json)
    ensures SameType(a, b) <==>
      ((a.Null? && b.Null?) || (a.Bool? && b.Bool?) || (a.Num? && b.Num?)
       || (a.Str? && b.Str?) || (a.Arr? && b.Arr?) || (a.Obj? && b.Obj?))
  {
  }

  // ---------------------------------------------------------------------------
  // The JSON library
  // ---------------------------------------------------------------------------

  /** encoding/json as used by the services: `valid` is json.Valid, `parse`
      is json.Unmarshal into `interface{}` (None when the text does not
      decode: invalid JSON, or a number beyond float64), `marshal` is
      json.Marshal and `marshalIndent` is json.MarshalIndent(v, "", "  ").
      `number` tells which reals the library's number type holds: the
      float64 values for encoding/json. The library's own algorithms are not
      part of this model. */
  datatype Library = Library(
    valid: string -> bool,
    parse: string -> Option<Value>,
    marshal: Value -> string,
    marshalIndent: Value -> string,
    number: real -> bool)

  /** Every number in the document is one `number` admits. */
  predicate NumbersIn(j: Json, number: real -> bool) {
    match j
    case Num(n) => number(n)
    case Arr(xs) => forall i :: 0 <= i < |xs| ==> NumbersIn(xs[i], number)
    case Obj(fs) => forall i :: 0 <= i < |fs| ==> NumbersIn(fs[i].value, number)
    case _ => true
  }

  predicate NumbersInFields(fs: seq<Field>, number: real -> bool) {
    forall i :: 0 <= i < |fs| ==> NumbersIn(fs[i].value, number)
  }

  /** A document the library can hold: every number in it is one its number
      type holds. */
  predicate Holds(lib: Library, j: Json) {
    NumbersIn(j, lib.number)
  }

  /** Whatever the library decodes it can hold. */
  ghost predicate DecodesHeld(lib: Library) {
    forall t: string {:trigger lib.parse(t)} :: lib.parse(t).Some? ==> Holds(lib, lib.parse(t).value)
  }

  /** The round trip the library guarantees for every document it can hold,
      that whatever decodes is valid, and that decoded documents are ones it
      can hold. */
  ghost predicate Lawful(lib: Library) {
    && DecodesHeld(lib)
    && (forall v: Value {:trigger lib.marshal(v)} :: Holds(lib, v) ==> lib.parse(lib.marshal(v)) == Some(v))
    && (forall t: string {:trigger lib.parse(t)} :: lib.parse(t).Some? ==> lib.valid(t))
  }

  /** The same round trip through the indented encoding. */
  ghost predicate LawfulIndent(lib: Library) {
    && DecodesHeld(lib)
    && (forall v: Value {:trigger lib.marshalIndent(v)} :: Holds(lib, v) ==> lib.parse(lib.marshalIndent(v)) == Some(v))
  }

  /** The members of a decoded object are held too. */
  lemma DecodedObjectHeld(lib: Library, text: string)
    requires DecodesHeld(lib)
    ensures ParseObject(lib, text).Some? && ParseObject(lib, text).value.Some? ==>
      NumbersInFields(ParseObject(lib, text).value.value, lib.number)
  {
    if lib.parse(text).Some? {
      assert Holds(lib, lib.parse(text).value);
    }
  }

  /** A member found in held fields is held. */
  lemma LookupHeld(fs: seq<Field>, k: string, number: real -> bool)
    requires NumbersInFields(fs, number)
    ensures Lookup(fs, k).Some? ==> NumbersIn(Lookup(fs, k).value, number)
  {
    if Lookup(fs, k).Some? {
      var i :| 0 <= i < |fs| && fs[i] == Field(k, Lookup(fs, k).value);
    }
  }

  /** The first member of held fields is held, and so are the others. */
  lemma HeldSplit(fs: seq<Field>, number: real -> bool)
    requires |fs| > 0 && NumbersInFields(fs, number)
    ensures NumbersIn(fs[0].value, number) && NumbersInFields(fs[1..], number)
  {
    assert forall i :: 1 <= i < |fs| ==> fs[1..][i - 1] == fs[i];
  }

  /** Canonical fields whose every member is held are held. */
  lemma HeldByLookup(fs: seq<Field>, number: real -> bool)
    requires Ascending(fs)
    requires forall k :: Lookup(fs, k).Some? ==> NumbersIn(Lookup(fs, k).value, number)
    ensures NumbersInFields(fs, number)
  {
    forall i | 0 <= i < |fs| ensures NumbersIn(fs[i].value, number) {
      LookupAt(fs, i);
    }
  }

  /** json.Unmarshal into `map[string]interface{}`: an object decodes to its
      fields, `null` leaves the map nil (no error, no entries), anything else
      is an error. The inner Option distinguishes a nil map (None). */
  function ParseObject(lib: Library, text: string): (r: Option<Option<seq<Field>>>)
    ensures r.Some? ==> lib.parse(text).Some?
    ensures r.Some? && r.value.Some? ==> WellFormedFields(r.value.value)
  {
    match lib.parse(text)
    case None => None
    case Some(v) =>
      if v.Null? then Some(None)
      else if v.Obj? then Some(Some(v.fields))
      else None
  }

  /** The entries of a possibly-nil map. */
  function EntriesOf(m: Option<seq<Field>>): seq<Field> {
    if m.Some? then m.value else []
  }

  /** An object from fields already in canonical form. */
  function ObjValue(fs: seq<Field>): (v: Value)
    requires WellFormedFields(fs)
    ensures v == Obj(fs)
  {
    Obj(fs)
  }
}
