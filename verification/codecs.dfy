/** The JSON encodings of the small records the services keep as text: key
    permissions, IP whitelists and a project's environment list. The
    encoding/json calls are parameters; the `...Lawful` predicates state the
    round trips the services rely on, one family of records at a time. */
module Codecs {
  import opened Wrappers
  import opened Records
  import Text

  /** What json.Unmarshal leaves in its target, and whether it returned an
      error. A member of the wrong type is skipped and reported while the
      members around it are still decoded, so `value` can be partly set when
      `failed` is true. */
  datatype Decoded<T> = Decoded(value: T, failed: bool)

  /** A permission name is set in a map exactly when it is present with the
      value true. */
  function Get(m: map<string, bool>, name: string): bool {
    name in m && m[name]
  }

  /** The rune encoding/json folds c to, as far as a comparison with an ASCII
      letter can tell: ASCII letters fold to upper case, U+017F (long s) to
      'S' and U+212A (Kelvin sign) to 'K'. Every other rune folds to itself or
      to another rune outside ASCII. */
  function FoldRune(c: char): (f: char)
    ensures 'a' <= c <= 'z' ==> f as int == c as int - 32
    ensures f != c ==> 'a' <= c <= 'z' || c == '\U{017F}' || c == '\U{212A}'
  {
    if 'a' <= c <= 'z' then (c as int - 32) as char
    else if c == '\U{017F}' then 'S'
    else if c == '\U{212A}' then 'K'
    else c
  }

  /** Whether json.Unmarshal binds an object member named `key` to the struct
      field tagged `name` (a lower-case ASCII tag): the two are equal once
      case is folded. */
  predicate NameMatches(key: string, name: string) {
    |key| == |name| && forall i :: 0 <= i < |key| ==> FoldRune(key[i]) == FoldRune(name[i])
  }

  /** Whether the field tagged `name` ends up true when json.Unmarshal reads
      json.Marshal of m. Marshal writes a map's keys in ascending byte order
      and each key that matches the field overwrites it, so the greatest
      matching key decides; with no matching key the field stays false. */
  predicate FoldGet(m: map<string, bool>, name: string) {
    exists k | k in m && NameMatches(k, name) ::
      m[k] && forall k' | k' in m && NameMatches(k', name) :: Text.LessEq(k', k)
  }

  /** json.Unmarshal of a map[string]bool's encoding into model.Permissions:
      each flag is read from the greatest key equal to its name ignoring
      case, names matching no flag are ignored. */
  function FromMap(m: map<string, bool>): (p: Permissions)
    ensures forall name :: name in PermissionNames ==> Flag(p, name) == Some(FoldGet(m, name))
  {
    Permissions(FoldGet(m, "read"), FoldGet(m, "write"), FoldGet(m, "delete"),
                FoldGet(m, "release"), FoldGet(m, "admin"), FoldGet(m, "decrypt"))
  }

  /** The greatest key matching a field decides it, whatever the other
      matching keys say. */
  lemma FromMapGreatestDecides(m: map<string, bool>, key: string, name: string)
    requires key in m && NameMatches(key, name)
    requires forall k | k in m && NameMatches(k, name) :: Text.LessEq(k, key)
    ensures FoldGet(m, name) == m[key]
  {
    if FoldGet(m, name) {
      var k :| k in m && NameMatches(k, name) && m[k]
        && forall k' | k' in m && NameMatches(k', name) :: Text.LessEq(k', k);
      assert Text.LessEq(key, k) && Text.LessEq(k, key);
      Text.LessAsymmetric(k, key);
    } else {
      assert !(m[key] && forall k' | k' in m && NameMatches(k', name) :: Text.LessEq(k', key));
    }
  }

  /** A field no key matches stays false. */
  lemma FromMapUnmatched(m: map<string, bool>, name: string)
    requires forall k | k in m :: !NameMatches(k, name)
    ensures !FoldGet(m, name)
  {
  }

  /** A key in any case sets the flag it names when no other key matches
      that flag: {"READ": true} grants read. */
  lemma FromMapFoldsCase(m: map<string, bool>, key: string, name: string)
    requires name in PermissionNames && key in m && NameMatches(key, name)
    requires forall k | k in m && k != key :: !NameMatches(k, name)
    ensures Flag(FromMap(m), name) == Some(m[key])
  {
    FromMapGreatestDecides(m, key, name);
  }

  /** No two permission names match each other. */
  lemma NamesDistinct(a: string, b: string)
    requires a in PermissionNames && b in PermissionNames && NameMatches(a, b)
    ensures a == b
  {
  }

  /** A map keyed by exact permission names, as the services write them,
      reads back flag by flag. */
  lemma FromMapExactNames(m: map<string, bool>, name: string)
    requires forall k | k in m :: k in PermissionNames
    requires name in PermissionNames
    ensures Flag(FromMap(m), name) == Some(Get(m, name))
  {
    forall k | k in m && NameMatches(k, name) ensures k == name {
      NamesDistinct(k, name);
    }
    assert NameMatches(name, name);
    if name in m {
      FromMapGreatestDecides(m, name, name);
    }
  }

  datatype Codecs = Codecs(
    // json.Unmarshal into model.Permissions
    decodePermissions: string -> Decoded<Permissions>,
    // json.Marshal of model.Permissions
    encodePermissions: Permissions -> string,
    // json.Marshal of map[string]bool
    encodeFlags: map<string, bool> -> string,
    // json.Unmarshal into []string (None on a decoding error) and
    // json.Marshal of a non-nil []string
    decodeStrings: string -> Option<seq<string>>,
    encodeStrings: seq<string> -> string,
    // the "environments" member of a project's settings, and json.Marshal
    // of {"environments": envs}
    decodeEnvironments: string -> Option<seq<Environment>>,
    encodeEnvironments: seq<Environment> -> string)

  /** The permission codecs: a Permissions value and a flag map read back
      without error (the map through the case-folding match), and
      json.Marshal never writes empty text. */
  ghost predicate PermissionsLawful(c: Codecs) {
    && (forall p {:trigger c.encodePermissions(p)} :: c.decodePermissions(c.encodePermissions(p)) == Decoded(p, false))
    && (forall m {:trigger c.encodeFlags(m)} :: c.decodePermissions(c.encodeFlags(m)) == Decoded(FromMap(m), false))
    && (forall p {:trigger c.encodePermissions(p)} :: c.encodePermissions(p) != "")
    && (forall m {:trigger c.encodeFlags(m)} :: c.encodeFlags(m) != "")
  }

  /** The string-list codecs: a list reads back, its text is never empty,
      and the empty list is written "[]". */
  ghost predicate StringsLawful(c: Codecs) {
    && (forall l {:trigger c.encodeStrings(l)} :: c.decodeStrings(c.encodeStrings(l)) == Some(l))
    && (forall l {:trigger c.encodeStrings(l)} :: c.encodeStrings(l) != "")
    && c.encodeStrings([]) == "[]"
  }

  /** The environment-list codecs: a list reads back from the settings it
      was written to. */
  ghost predicate EnvironmentsLawful(c: Codecs) {
    && (forall e {:trigger c.encodeEnvironments(e)} :: c.decodeEnvironments(c.encodeEnvironments(e)) == Some(e))
    && (forall e {:trigger c.encodeEnvironments(e)} :: c.encodeEnvironments(e) != "")
  }

  /** The six flags as text, one digit each. */
  function Digits(p: Permissions): (s: string)
    ensures |s| == 6
  {
    [Digit(p.read), Digit(p.write), Digit(p.delete), Digit(p.release), Digit(p.admin), Digit(p.decrypt)]
  }

  function Digit(b: bool): char {
    if b then '1' else '0'
  }

  /** Reads back the text of `TaggedCodecs`: a tag, then six digits. */
  function DecodeTagged(s: string): (r: Decoded<Permissions>)
    ensures r.failed <==> !(|s| == 7 && (s[0] == 'P' || s[0] == 'F'))
  {
    if |s| == 7 && (s[0] == 'P' || s[0] == 'F')
    then Decoded(Permissions(s[1] == '1', s[2] == '1', s[3] == '1', s[4] == '1', s[5] == '1', s[6] == '1'), false)
    else Decoded(NoPermissions, true)
  }

  lemma TaggedReadsBack(tag: char, p: Permissions)
    requires tag == 'P' || tag == 'F'
    ensures DecodeTagged([tag] + Digits(p)) == Decoded(p, false)
  {
    var s := [tag] + Digits(p);
    assert s[1] == Digit(p.read) && s[2] == Digit(p.write) && s[3] == Digit(p.delete);
    assert s[4] == Digit(p.release) && s[5] == Digit(p.admin) && s[6] == Digit(p.decrypt);
  }

  /** A permission codec that tags its text with the record it came from:
      the laws above can be met together with case-folding map decoding. */
  function TaggedCodecs(): (c: Codecs)
    ensures PermissionsLawful(c)
  {
    var c := Codecs(
      DecodeTagged,
      (p: Permissions) => ['P'] + Digits(p),
      (m: map<string, bool>) => ['F'] + Digits(FromMap(m)),
      (s: string) => None, (l: seq<string>) => "[]",
      (s: string) => None, (e: seq<Environment>) => "{}");
    assert forall p :: c.decodePermissions(c.encodePermissions(p)) == Decoded(p, false) by {
      forall p ensures DecodeTagged(['P'] + Digits(p)) == Decoded(p, false) {
        TaggedReadsBack('P', p);
      }
    }
    assert forall m :: c.decodePermissions(c.encodeFlags(m)) == Decoded(FromMap(m), false) by {
      forall m ensures DecodeTagged(['F'] + Digits(FromMap(m))) == Decoded(FromMap(m), false) {
        TaggedReadsBack('F', FromMap(m));
      }
    }
    c
  }
}
