/** Decoded YAML documents — what yaml.v3's Unmarshal into `interface{}`
    produces — and convertYAMLToJSON (internal/service/parser.go:147-171),
    which turns every mapping into a string-keyed one so the tree can be
    written as JSON. */
module YamlValue {
  import opened Wrappers
  import opened Text
  import opened JsonValue

  /** A mapping keeps its entries in document order; its keys may be any
      node (yaml.v3 returns `map[string]interface{}` when every key is a
      string and `map[interface{}]interface{}` otherwise). */
  datatype Yaml =
    | YNull
    | YBool(b: bool)
    | YInt(i: int)
    | YFloat(f: real)
    | YStr(s: string)
    | YSeq(items: seq<Yaml>)
    | YMap(entries: seq<Entry>)

  datatype Entry = Entry(key: Yaml, value: Yaml)

  function YSize(y: Yaml): nat {
    match y
    case YSeq(xs) => 1 + ItemsSize(xs)
    case YMap(es) => 1 + EntriesSize(es)
    case _ => 1
  }

  function ItemsSize(xs: seq<Yaml>): nat {
    if |xs| == 0 then 0 else ItemsSize(xs[..|xs| - 1]) + YSize(xs[|xs| - 1]) + 1
  }

  function EntriesSize(es: seq<Entry>): nat
    decreases es
  {
    if |es| == 0 then 0
    else
      var e := es[|es| - 1];
      assert e.value < e;
      EntriesSize(es[..|es| - 1]) + YSize(e.value) + 1
  }

  /** fmt.Sprintf("%v", key) for the keys whose spelling is modelled here;
      floats and collections are spelt by `sprint`, which is fmt's own
      business. */
  function KeyText(k: Yaml, sprint: Yaml -> string): (t: string)
    ensures k.YStr? ==> t == k.s
    ensures k.YInt? ==> t == IntToDecimal(k.i)
  {
    match k
    case YStr(s) => s
    case YInt(i) => IntToDecimal(i)
    case YBool(b) => if b then "true" else "false"
    case YNull => "<nil>"
    case _ => sprint(k)
  }

  /** convertYAMLToJSON, read as a JSON document. Mappings are rebuilt key by
      key in document order, so when two keys spell the same text the later
      entry's value is kept (the source leaves this to Go's map order).
      Scalars pass through: integers and floats both become JSON numbers. */
  function Convert(y: Yaml, sprint: Yaml -> string): (j: Json)
    ensures WellFormed(j)
    ensures y.YSeq? ==> j.Arr? && |j.items| == |y.items|
    ensures y.YMap? ==> j.Obj?
    ensures y.YStr? ==> j == Str(y.s)
    ensures y.YNull? ==> j == Null
    decreases YSize(y), 1
  {
    match y
    case YNull => Null
    case YBool(b) => Bool(b)
    case YInt(i) => Num(i as real)
    case YFloat(f) => Num(f)
    case YStr(s) => Str(s)
    case YSeq(xs) => Arr(ConvertItems(xs, sprint))
    case YMap(es) => Obj(ConvertEntries(es, sprint))
  }

  /** Arrays are converted element by element: same length, same order. */
  function ConvertItems(xs: seq<Yaml>, sprint: Yaml -> string): (r: seq<Json>)
    ensures |r| == |xs|
    ensures forall i :: 0 <= i < |r| ==> WellFormed(r[i])
    decreases ItemsSize(xs), 0
  {
    if |xs| == 0 then []
    else ConvertItems(xs[..|xs| - 1], sprint) + [Convert(xs[|xs| - 1], sprint)]
  }

  function ConvertEntries(es: seq<Entry>, sprint: Yaml -> string): (r: seq<Field>)
    ensures WellFormedFields(r)
    decreases EntriesSize(es), 0
  {
    if |es| == 0 then []
    else
      var prefix := ConvertEntries(es[..|es| - 1], sprint);
      var e := es[|es| - 1];
      var v := Convert(e.value, sprint);
      PutWellFormed(prefix, KeyText(e.key, sprint), v);
      Put(prefix, KeyText(e.key, sprint), v)
  }

  /** Every converted key is looked up to the value of the last entry
      spelling it. */
  lemma {:induction false} ConvertEntriesLookup(es: seq<Entry>, sprint: Yaml -> string, i: nat)
    requires i < |es|
    requires forall j :: i < j < |es| ==> KeyText(es[j].key, sprint) != KeyText(es[i].key, sprint)
    ensures Lookup(ConvertEntries(es, sprint), KeyText(es[i].key, sprint)) == Some(Convert(es[i].value, sprint))
    decreases |es|
  {
    if i < |es| - 1 {
      var prefix := es[..|es| - 1];
      assert prefix[i] == es[i];
      assert forall j :: i < j < |prefix| ==> prefix[j] == es[j];
      ConvertEntriesLookup(prefix, sprint, i);
    }
  }

  /** What json.Marshal accepts from yaml.v3: every mapping at every depth is
      string-keyed. */
  predicate StringKeyed(y: Yaml)
    decreases YSize(y), 1
  {
    match y
    case YSeq(xs) => ItemsStringKeyed(xs)
    case YMap(es) => EntriesStringKeyed(es)
    case _ => true
  }

  predicate ItemsStringKeyed(xs: seq<Yaml>)
    decreases ItemsSize(xs), 0
  {
    |xs| == 0 || (ItemsStringKeyed(xs[..|xs| - 1]) && StringKeyed(xs[|xs| - 1]))
  }

  predicate EntriesStringKeyed(es: seq<Entry>)
    decreases EntriesSize(es), 0
  {
    |es| == 0 || (EntriesStringKeyed(es[..|es| - 1]) && es[|es| - 1].key.YStr? && StringKeyed(es[|es| - 1].value))
  }

  // ---------------------------------------------------------------------------
  // Idempotence: a tree that is already JSON converts to itself
  // ---------------------------------------------------------------------------

  /** A decoded JSON document seen as a YAML tree (Go values of the converted
      form: numbers are float64, maps are string-keyed). */
  function Embed(j: Json): (y: Yaml)
    ensures YSize(y) >= 1
  {
    match j
    case Null => YNull
    case Bool(b) => YBool(b)
    case Num(n) => YFloat(n)
    case Str(s) => YStr(s)
    case Arr(xs) => YSeq(EmbedItems(xs))
    case Obj(fs) => YMap(EmbedFields(fs))
  }

  function EmbedItems(xs: seq<Json>): (r: seq<Yaml>)
    ensures |r| == |xs|
    decreases xs
  {
    if |xs| == 0 then [] else EmbedItems(xs[..|xs| - 1]) + [Embed(xs[|xs| - 1])]
  }

  function EmbedFields(fs: seq<Field>): (r: seq<Entry>)
    ensures |r| == |fs|
    decreases fs
  {
    if |fs| == 0 then []
    else EmbedFields(fs[..|fs| - 1]) + [Entry(YStr(fs[|fs| - 1].key), Embed(fs[|fs| - 1].value))]
  }

  /** Adding a key above every present key appends it. */
  lemma {:induction false} PutAbove(fs: seq<Field>, k: string, v: Json)
    requires Ascending(fs)
    requires forall i :: 0 <= i < |fs| ==> Less(fs[i].key, k)
    ensures Put(fs, k, v) == fs + [Field(k, v)]
  {
    if |fs| > 0 {
      var tail := fs[1..];
      LessAsymmetric(fs[0].key, k);
      assert fs[0].key != k by { LessIrreflexive(k); }
      assert forall i :: 0 <= i < |tail| ==> Less(tail[i].key, k) by {
        forall i | 0 <= i < |tail| ensures Less(tail[i].key, k) { assert tail[i] == fs[i + 1]; }
      }
      AscendingTail(fs);
      PutAbove(tail, k, v);
      PutPasses(fs, k, v);
      HeadSnoc(fs, Field(k, v));
    }
  }

  lemma HeadSnoc<T>(xs: seq<T>, y: T)
    requires |xs| > 0
    ensures [xs[0]] + (xs[1..] + [y]) == xs + [y]
  {
    assert xs == [xs[0]] + xs[1..];
  }

  /** Below a smaller head key, Put leaves the head and works on the rest. */
  lemma PutPasses(fs: seq<Field>, k: string, v: Json)
    requires Ascending(fs) && |fs| > 0 && Less(fs[0].key, k) && fs[0].key != k
    requires !Less(k, fs[0].key)
    ensures Put(fs, k, v) == [fs[0]] + Put(fs[1..], k, v)
  {
  }

  /** Converting a JSON document's YAML view gives the document back. */
  lemma {:induction false} ConvertEmbed(j: Json, sprint: Yaml -> string)
    requires WellFormed(j)
    ensures Convert(Embed(j), sprint) == j
    decreases j, 1
  {
    match j
    case Arr(xs) => ConvertEmbedItems(xs, sprint);
    case Obj(fs) => ConvertEmbedFields(fs, sprint);
    case _ =>
  }

  lemma {:induction false} ConvertEmbedItems(xs: seq<Json>, sprint: Yaml -> string)
    requires forall i :: 0 <= i < |xs| ==> WellFormed(xs[i])
    ensures ConvertItems(EmbedItems(xs), sprint) == xs
    decreases xs, 0
  {
    if |xs| > 0 {
      var n := |xs| - 1;
      var ys := EmbedItems(xs);
      assert ys[..n] == EmbedItems(xs[..n]);
      assert ys[n] == Embed(xs[n]);
      ConvertEmbedItems(xs[..n], sprint);
      ConvertEmbed(xs[n], sprint);
      assert xs == xs[..n] + [xs[n]];
    }
  }

  lemma {:induction false} ConvertEmbedFields(fs: seq<Field>, sprint: Yaml -> string)
    requires WellFormedFields(fs)
    ensures ConvertEntries(EmbedFields(fs), sprint) == fs
    decreases fs, 0
  {
    if |fs| > 0 {
      var n := |fs| - 1;
      var es := EmbedFields(fs);
      assert es[..n] == EmbedFields(fs[..n]);
      assert es[n] == Entry(YStr(fs[n].key), Embed(fs[n].value));
      assert WellFormedFields(fs[..n]);
      ConvertEmbedFields(fs[..n], sprint);
      ConvertEmbed(fs[n].value, sprint);
      ConvertEntriesLast(es, sprint);
      assert KeyText(es[n].key, sprint) == fs[n].key;
      PutLast(fs);
    }
  }

  /** An ascending field list is its prefix with the last field put back. */
  lemma PutLast(fs: seq<Field>)
    requires Ascending(fs) && |fs| > 0
    ensures var n := |fs| - 1; Put(fs[..n], fs[n].key, fs[n].value) == fs
  {
    var n := |fs| - 1;
    var init := fs[..n];
    assert forall i :: 0 <= i < |init| ==> Less(init[i].key, fs[n].key) by {
      forall i | 0 <= i < |init| ensures Less(init[i].key, fs[n].key) { assert init[i] == fs[i]; }
    }
    assert Ascending(init) by {
      forall i, j | 0 <= i < j < |init| ensures Less(init[i].key, init[j].key) {
        assert init[i] == fs[i] && init[j] == fs[j];
      }
    }
    PutAbove(init, fs[n].key, fs[n].value);
    assert Field(fs[n].key, fs[n].value) == fs[n];
    PrefixSnoc(fs);
  }

  lemma PrefixSnoc<T>(xs: seq<T>)
    requires |xs| > 0
    ensures xs[..|xs| - 1] + [xs[|xs| - 1]] == xs
  {
  }

  /** ConvertEntries puts the last entry into the conversion of the others. */
  lemma ConvertEntriesLast(es: seq<Entry>, sprint: Yaml -> string)
    requires |es| > 0
    ensures var n := |es| - 1;
      ConvertEntries(es, sprint)
        == Put(ConvertEntries(es[..n], sprint), KeyText(es[n].key, sprint), Convert(es[n].value, sprint))
  {
  }

  /** convertYAMLToJSON is idempotent: converting the converted tree again
      changes nothing. */
  lemma ConvertIdempotent(y: Yaml, sprint: Yaml -> string)
    ensures Convert(Embed(Convert(y, sprint)), sprint) == Convert(y, sprint)
  {
    ConvertEmbed(Convert(y, sprint), sprint);
  }
}
