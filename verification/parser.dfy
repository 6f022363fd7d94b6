/** The configuration parser (internal/service/parser.go): JSON validation and
    re-formatting, YAML-to-JSON conversion and the dispatch between them. The
    YAML decoder is a parameter, like the JSON library. */
module Parser {
  import opened Wrappers
  import opened Text
  import opened JsonValue
  import opened YamlValue
  import opened Errors

  /** yaml.Unmarshal into `interface{}` (None on a YAML error) and the
      fmt "%v" spelling of keys it cannot spell itself. */
  datatype YamlLibrary = YamlLibrary(parse: string -> Option<Yaml>, sprint: Yaml -> string)

  /** Why a parse failed; the source appends the decoder's own message to
      the last three, which is not modelled. */
  datatype Issue = NotValidJson | JsonDecodeError | YamlDecodeError | JsonEncodeError

  /** ParseResult */
  datatype ParseResult = ParseResult(valid: bool, content: string, fileType: string, errors: seq<Issue>)

  /** ParseJSON: invalid text gives one error and ErrParseJSON; otherwise the
      content is re-written with two-space indentation. */
  function ParseJSON(lib: Library, content: string): (r: (ParseResult, Option<Error>))
    ensures r.0.fileType == "json"
    ensures r.0.valid <==> r.1.None?
    ensures r.1.Some? ==> r.1.value == Errors.ParseJSON && |r.0.errors| == 1 && r.0.content == ""
    ensures !lib.valid(content) ==> r.0.errors == [NotValidJson]
    ensures r.0.valid <==> lib.valid(content) && lib.parse(content).Some?
    ensures r.0.valid ==> r.0.content == lib.marshalIndent(lib.parse(content).value)
  {
    if !lib.valid(content) then (ParseResult(false, "", "json", [NotValidJson]), Some(Errors.ParseJSON))
    else match lib.parse(content)
      case None => (ParseResult(false, "", "json", [JsonDecodeError]), Some(Errors.ParseJSON))
      case Some(v) => (ParseResult(true, lib.marshalIndent(v), "json", []), None)
  }

  /** ParseYAML: the decoded tree goes through convertYAMLToJSON and is
      written as indented JSON. */
  function ParseYAML(ylib: YamlLibrary, lib: Library, content: string): (r: (ParseResult, Option<Error>))
    ensures r.0.fileType == "yaml"
    ensures r.0.valid <==> r.1.None?
    ensures r.0.valid <==> ylib.parse(content).Some?
    ensures r.1.Some? ==> r.1.value == Errors.ParseYAML && r.0.errors == [YamlDecodeError]
    ensures r.0.valid ==> r.0.content == lib.marshalIndent(Convert(ylib.parse(content).value, ylib.sprint))
  {
    match ylib.parse(content)
    case None => (ParseResult(false, "", "yaml", [YamlDecodeError]), Some(Errors.ParseYAML))
    case Some(y) => (ParseResult(true, lib.marshalIndent(Convert(y, ylib.sprint)), "yaml", []), None)
  }

  /** DetectAndParse: whitespace is trimmed, and the text is JSON exactly when
      it then starts with "{" or "[". */
  function DetectAndParse(ylib: YamlLibrary, lib: Library, content: string): (r: (ParseResult, Option<Error>))
    ensures var t := TrimSpace(content);
      r == (if HasPrefix(t, "{") || HasPrefix(t, "[") then ParseJSON(lib, t) else ParseYAML(ylib, lib, t))
  {
    var t := TrimSpace(content);
    if HasPrefix(t, "{") || HasPrefix(t, "[") then ParseJSON(lib, t) else ParseYAML(ylib, lib, t)
  }

  /** The dispatch decides the reported file type. */
  lemma DetectedType(ylib: YamlLibrary, lib: Library, content: string)
    ensures var t := TrimSpace(content);
      DetectAndParse(ylib, lib, content).0.fileType == (if HasPrefix(t, "{") || HasPrefix(t, "[") then "json" else "yaml")
  {
  }

  /** Leading whitespace does not hide a JSON document from the dispatch. */
  lemma LeadingSpaceIgnored(ylib: YamlLibrary, lib: Library, content: string)
    requires |content| > 0 && IsSpace(content[0])
    ensures DetectAndParse(ylib, lib, content) == DetectAndParse(ylib, lib, content[1..])
  {
    assert TrimLeftSpace(content) == TrimLeftSpace(content[1..]);
    TrimSpaceDropsLeading(content);
  }

  lemma TrimSpaceDropsLeading(s: string)
    requires |s| > 0 && IsSpace(s[0])
    ensures TrimSpace(s) == TrimSpace(s[1..])
  {
  }

  /** FormatJSON: indented output, ErrParseJSON on undecodable input. */
  function FormatJSON(lib: Library, content: string): (r: Result<string, Error>)
    ensures r.Err? <==> lib.parse(content).None?
    ensures r.Err? ==> r.error == Errors.ParseJSON
  {
    match lib.parse(content)
    case None => Err(Errors.ParseJSON)
    case Some(v) => Ok(lib.marshalIndent(v))
  }

  /** MinifyJSON: compact output, ErrParseJSON on undecodable input. */
  function MinifyJSON(lib: Library, content: string): (r: Result<string, Error>)
    ensures r.Err? <==> lib.parse(content).None?
    ensures r.Err? ==> r.error == Errors.ParseJSON
  {
    match lib.parse(content)
    case None => Err(Errors.ParseJSON)
    case Some(v) => Ok(lib.marshal(v))
  }

  /** Formatting and minifying change the spelling, never the document, and
      applying either twice is the same as once. */
  lemma FormatKeepsDocument(lib: Library, content: string)
    requires Lawful(lib) && LawfulIndent(lib)
    requires lib.parse(content).Some?
    ensures lib.parse(FormatJSON(lib, content).value) == lib.parse(content)
    ensures lib.parse(MinifyJSON(lib, content).value) == lib.parse(content)
    ensures FormatJSON(lib, FormatJSON(lib, content).value) == FormatJSON(lib, content)
    ensures MinifyJSON(lib, MinifyJSON(lib, content).value) == MinifyJSON(lib, content)
  {
    var v := lib.parse(content).value;
    assert lib.parse(lib.marshal(v)) == Some(v);
    assert lib.parse(lib.marshalIndent(v)) == Some(v);
  }

  /** What Upload stores for YAML content: json.Marshal of the decoded tree,
      which fails (ErrInvalidYAML) when a mapping has a key that is not a
      string. */
  function YamlToJsonText(ylib: YamlLibrary, lib: Library, content: string): (r: Result<string, Error>)
    ensures r.Err? ==> r.error == InvalidYAML
    ensures r.Ok? <==> ylib.parse(content).Some? && StringKeyed(ylib.parse(content).value)
    ensures r.Ok? ==> r.value == lib.marshal(Convert(ylib.parse(content).value, ylib.sprint))
  {
    match ylib.parse(content)
    case None => Err(InvalidYAML)
    case Some(y) => if StringKeyed(y) then Ok(lib.marshal(Convert(y, ylib.sprint))) else Err(InvalidYAML)
  }

  /** JSON documents written as YAML come back unchanged through the upload
      path, provided the JSON library can hold every number in them, as it
      can for any document it decoded. */
  lemma YamlOfJsonRoundTrip(ylib: YamlLibrary, lib: Library, content: string, v: Value)
    requires Lawful(lib)
    requires ylib.parse(content) == Some(Embed(v)) && Holds(lib, v)
    ensures StringKeyed(Embed(v))
    ensures YamlToJsonText(ylib, lib, content).Ok?
    ensures lib.parse(YamlToJsonText(ylib, lib, content).value) == Some(v)
  {
    EmbedStringKeyed(v);
    ConvertEmbed(v, ylib.sprint);
    assert lib.parse(lib.marshal(v)) == Some(v);
  }

  lemma {:induction false} EmbedStringKeyed(j: Json)
    ensures StringKeyed(Embed(j))
    decreases j, 1
  {
    match j
    case Arr(xs) => EmbedItemsStringKeyed(xs);
    case Obj(fs) => EmbedFieldsStringKeyed(fs);
    case _ =>
  }

  lemma {:induction false} EmbedItemsStringKeyed(xs: seq<Json>)
    ensures ItemsStringKeyed(EmbedItems(xs))
    decreases xs, 0
  {
    if |xs| > 0 {
      var n := |xs| - 1;
      assert EmbedItems(xs)[..n] == EmbedItems(xs[..n]);
      EmbedItemsStringKeyed(xs[..n]);
      EmbedStringKeyed(xs[n]);
    }
  }

  lemma {:induction false} EmbedFieldsStringKeyed(fs: seq<Field>)
    ensures EntriesStringKeyed(EmbedFields(fs))
    decreases fs, 0
  {
    if |fs| > 0 {
      var n := |fs| - 1;
      assert EmbedFields(fs)[..n] == EmbedFields(fs[..n]);
      EmbedFieldsStringKeyed(fs[..n]);
      EmbedStringKeyed(fs[n].value);
    }
  }
}
