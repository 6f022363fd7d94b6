/** A library that meets the laws JsonValue states of encoding/json. The code
    is not JSON: every value is written as a tag followed by its parts, with
    counts in unary, so it can be read back without look-ahead. Its number
    type holds the whole numbers. It shows that Lawful and LawfulIndent can
    hold together, for a library whose number type is countable. */
module JsonCode {
  import opened Wrappers
  import opened JsonValue

  /** The numbers this code holds. */
  predicate Whole(n: real) {
    n == n.Floor as real
  }

  /** n in unary, closed by ';'. */
  function Count(n: nat): string {
    if n == 0 then ";" else "#" + Count(n - 1)
  }

  function Enc(j: Json): (t: string)
    ensures |t| > 0 && t[0] in "ntf+-s[{"
  {
    match j
    case Null => "n"
    case Bool(b) => if b then "t" else "f"
    case Num(n) => if n.Floor >= 0 then "+" + Count(n.Floor) else "-" + Count(-n.Floor)
    case Str(s) => "s" + Count(|s|) + s
    case Arr(xs) => "[" + EncItems(xs) + "]"
    case Obj(fs) => "{" + EncFields(fs) + "}"
  }

  function EncItems(xs: seq<Json>): string {
    if |xs| == 0 then "" else Enc(xs[0]) + EncItems(xs[1..])
  }

  function EncFields(fs: seq<Field>): string {
    if |fs| == 0 then "" else Count(|fs[0].key|) + fs[0].key + Enc(fs[0].value) + EncFields(fs[1..])
  }

  /** A count and the text after it. */
  function DecCount(t: string): (r: Option<(nat, string)>)
    ensures r.Some? ==> |r.value.1| < |t|
  {
    if |t| == 0 then None
    else if t[0] == ';' then Some((0, t[1..]))
    else if t[0] == '#' then
      match DecCount(t[1..])
      case None => None
      case Some((n, rest)) => Some((n + 1, rest))
    else None
  }

  /** A value and the text after it. */
  function Dec(t: string): (r: Option<(Json, string)>)
    ensures r.Some? ==> |r.value.1| < |t|
    decreases |t|, 0
  {
    if |t| == 0 then None
    else if t[0] == 'n' then Some((Null, t[1..]))
    else if t[0] == 't' then Some((Bool(true), t[1..]))
    else if t[0] == 'f' then Some((Bool(false), t[1..]))
    else if t[0] == '+' || t[0] == '-' then
      match DecCount(t[1..])
      case None => None
      case Some((k, rest)) => Some((Num(if t[0] == '+' then k as real else -(k as real)), rest))
    else if t[0] == 's' then
      match DecCount(t[1..])
      case None => None
      case Some((k, rest)) => if k <= |rest| then Some((Str(rest[..k]), rest[k..])) else None
    else if t[0] == '[' then
      match DecItems(t[1..])
      case None => None
      case Some((xs, rest)) => Some((Arr(xs), rest))
    else if t[0] == '{' then
      match DecFields(t[1..])
      case None => None
      case Some((fs, rest)) => Some((Obj(fs), rest))
    else None
  }

  /** Items up to the closing ']'. */
  function DecItems(t: string): (r: Option<(seq<Json>, string)>)
    ensures r.Some? ==> |r.value.1| < |t|
    decreases |t|, 1
  {
    if |t| == 0 then None
    else if t[0] == ']' then Some(([], t[1..]))
    else
      match Dec(t)
      case None => None
      case Some((x, rest)) =>
        match DecItems(rest)
        case None => None
        case Some((xs, after)) => Some(([x] + xs, after))
  }

  /** Members up to the closing '}'. */
  function DecFields(t: string): (r: Option<(seq<Field>, string)>)
    ensures r.Some? ==> |r.value.1| < |t|
    decreases |t|, 1
  {
    if |t| == 0 then None
    else if t[0] == '}' then Some(([], t[1..]))
    else
      match DecCount(t)
      case None => None
      case Some((k, rest)) =>
        if k > |rest| then None
        else
          match Dec(rest[k..])
          case None => None
          case Some((v, after)) =>
            match DecFields(after)
            case None => None
            case Some((fs, last)) => Some(([Field(rest[..k], v)] + fs, last))
  }

  /** The whole text is one canonical document with whole numbers. */
  function Parse(t: string): (r: Option<Value>)
    ensures r.Some? ==> NumbersIn(r.value, Whole)
  {
    match Dec(t)
    case None => None
    case Some((v, rest)) => if |rest| == 0 && WellFormed(v) && NumbersIn(v, Whole) then Some(v) else None
  }

  function Code(): Library {
    Library((t: string) => Parse(t).Some?, (t: string) => Parse(t),
            (v: Value) => Enc(v), (v: Value) => Enc(v), Whole)
  }

  lemma {:induction false} CountReadsBack(n: nat, rest: string)
    ensures DecCount(Count(n) + rest) == Some((n, rest))
  {
    if n > 0 {
      CountReadsBack(n - 1, rest);
      assert (Count(n) + rest)[1..] == Count(n - 1) + rest;
    }
  }

  lemma {:induction false} EncReadsBack(j: Json, rest: string)
    requires NumbersIn(j, Whole)
    ensures Dec(Enc(j) + rest) == Some((j, rest))
    decreases j, 1
  {
    match j
    case Null =>
    case Bool(b) =>
    case Num(n) => NumReadsBack(n, rest);
    case Str(s) => StrReadsBack(s, rest);
    case Arr(xs) =>
      ItemsReadBack(xs, rest);
      ArrReadsBack(xs, rest);
    case Obj(fs) =>
      FieldsReadBack(fs, rest);
      ObjReadsBack(fs, rest);
  }

  lemma NumReadsBack(n: real, rest: string)
    requires Whole(n)
    ensures Dec(Enc(Num(n)) + rest) == Some((Num(n), rest))
  {
    var t := Enc(Num(n)) + rest;
    var k := n.Floor;
    if k >= 0 {
      CountReadsBack(k, rest);
      assert t[1..] == Count(k) + rest;
    } else {
      CountReadsBack(-k, rest);
      assert t[1..] == Count(-k) + rest;
    }
  }

  lemma StrReadsBack(s: string, rest: string)
    ensures Dec(Enc(Str(s)) + rest) == Some((Str(s), rest))
  {
    var t := Enc(Str(s)) + rest;
    CountReadsBack(|s|, s + rest);
    assert t[1..] == Count(|s|) + (s + rest);
    assert (s + rest)[..|s|] == s && (s + rest)[|s|..] == rest;
  }

  lemma ArrReadsBack(xs: seq<Json>, rest: string)
    requires DecItems(EncItems(xs) + "]" + rest) == Some((xs, rest))
    ensures Dec(Enc(Arr(xs)) + rest) == Some((Arr(xs), rest))
  {
    var t := Enc(Arr(xs)) + rest;
    assert Enc(Arr(xs)) == "[" + EncItems(xs) + "]";
    OpenSplit('[', EncItems(xs), ']', rest);
    DecOpen(t);
  }

  lemma ObjReadsBack(fs: seq<Field>, rest: string)
    requires DecFields(EncFields(fs) + "}" + rest) == Some((fs, rest))
    ensures Dec(Enc(Obj(fs)) + rest) == Some((Obj(fs), rest))
  {
    var t := Enc(Obj(fs)) + rest;
    assert Enc(Obj(fs)) == "{" + EncFields(fs) + "}";
    OpenSplit('{', EncFields(fs), '}', rest);
    DecOpen(t);
  }

  lemma OpenSplit(open: char, body: string, close: char, rest: string)
    ensures var t := [open] + body + [close] + rest;
      |t| > 0 && t[0] == open && t[1..] == body + [close] + rest
  {
    var t := [open] + body + [close] + rest;
    assert t == [open] + (body + [close] + rest);
  }

  /** A text opening an array or an object reads as its items or members. */
  lemma DecOpen(t: string)
    requires |t| > 0
    ensures t[0] == '[' && DecItems(t[1..]).Some? ==>
      Dec(t) == Some((Arr(DecItems(t[1..]).value.0), DecItems(t[1..]).value.1))
    ensures t[0] == '{' && DecFields(t[1..]).Some? ==>
      Dec(t) == Some((Obj(DecFields(t[1..]).value.0), DecFields(t[1..]).value.1))
  {
  }

  lemma {:induction false} ItemsReadBack(xs: seq<Json>, rest: string)
    requires forall i :: 0 <= i < |xs| ==> NumbersIn(xs[i], Whole)
    ensures DecItems(EncItems(xs) + "]" + rest) == Some((xs, rest))
    decreases xs, 0
  {
    if |xs| > 0 {
      var tail := EncItems(xs[1..]) + "]" + rest;
      assert EncItems(xs) + "]" + rest == Enc(xs[0]) + tail;
      EncReadsBack(xs[0], tail);
      ItemsReadBack(xs[1..], rest);
      assert [xs[0]] + xs[1..] == xs;
    }
  }

  lemma {:induction false} FieldsReadBack(fs: seq<Field>, rest: string)
    requires forall i :: 0 <= i < |fs| ==> NumbersIn(fs[i].value, Whole)
    ensures DecFields(EncFields(fs) + "}" + rest) == Some((fs, rest))
    decreases fs, 0
  {
    if |fs| > 0 {
      var key := fs[0].key;
      var tail := EncFields(fs[1..]) + "}" + rest;
      assert EncFields(fs) + "}" + rest == Count(|key|) + (key + (Enc(fs[0].value) + tail));
      EncReadsBack(fs[0].value, tail);
      FieldsReadBack(fs[1..], rest);
      FieldReadsBack(key, fs[0].value, tail);
      assert [Field(key, fs[0].value)] + fs[1..] == fs;
    }
  }

  /** One member, then the members after it. */
  lemma FieldReadsBack(key: string, v: Json, tail: string)
    requires Dec(Enc(v) + tail) == Some((v, tail)) && DecFields(tail).Some?
    ensures DecFields(Count(|key|) + (key + (Enc(v) + tail))) ==
      Some(([Field(key, v)] + DecFields(tail).value.0, DecFields(tail).value.1))
  {
    var afterCount := key + (Enc(v) + tail);
    CountReadsBack(|key|, afterCount);
    assert afterCount[..|key|] == key && afterCount[|key|..] == Enc(v) + tail;
  }

  /** The code meets both round-trip laws and decodes only what it holds. */
  lemma CodeLawful()
    ensures Lawful(Code()) && LawfulIndent(Code())
  {
    var lib := Code();
    forall v: Value | Holds(lib, v) ensures lib.parse(lib.marshal(v)) == Some(v) {
      EncReadsBack(v, "");
      assert Enc(v) + "" == Enc(v);
    }
    forall t: string | lib.parse(t).Some? ensures Holds(lib, lib.parse(t).value) {
    }
  }
}
