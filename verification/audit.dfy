/** The audit middleware: which requests are logged, and the action,
    resource type, resource id and request body recorded for them. */
module Audit {
  import opened Wrappers
  import opened Text
  import GoInt
  import Utf8
  import Middleware

  type byte = Utf8.byte

  /** At most this many bytes of a request body are kept. */
  const MaxBodyBytes := 2000

  /** Health checks, static files and GET requests are never audited. */
  predicate Audited(verb: string, path: string) {
    !(path == "/health" || HasPrefix(path, "/static")) && verb != "GET"
  }

  /** getActionFromMethod */
  function ActionOf(verb: string): (a: string)
    ensures a in {"create", "update", "delete", "read"}
    ensures a == "create" <==> verb == "POST"
    ensures a == "update" <==> verb in {"PUT", "PATCH"}
    ensures a == "delete" <==> verb == "DELETE"
  {
    if verb == "POST" then "create"
    else if verb == "PUT" || verb == "PATCH" then "update"
    else if verb == "DELETE" then "delete"
    else "read"
  }

  /** parseID as written: the digits accumulated in wrapping int64
      arithmetic, 0 as soon as a character is not a digit. */
  function ParseId(s: string): (id: int)
    ensures GoInt.IsInt64(id)
    ensures !AllDigits(s) ==> id == 0
  {
    if !AllDigits(s) then 0 else Accumulate(s, 0)
  }

  /** The loop over the digits from the accumulator `acc`. */
  function Accumulate(s: string, acc: int): (id: int)
    requires AllDigits(s) && GoInt.IsInt64(acc)
    ensures GoInt.IsInt64(id)
  {
    if |s| == 0 then acc
    else Accumulate(s[1..], GoInt.Wrap64(acc * 10 + DigitValue(s[0])))
  }

  /** Below the int64 bound, the digits are read as their decimal value. */
  lemma {:induction false} AccumulateValue(s: string, acc: nat)
    requires AllDigits(s) && GoInt.IsInt64(acc)
    requires acc * Pow10(|s|) + DigitsValue(s) <= GoInt.MaxInt64
    ensures Accumulate(s, acc) == acc * Pow10(|s|) + DigitsValue(s)
    decreases |s|
  {
    if |s| > 0 {
      var d := DigitValue(s[0]);
      var p := Pow10(|s| - 1);
      var next := acc * 10 + d;
      DigitsSplit(s);
      assert Pow10(|s|) == 10 * p;
      Pow10Positive(|s| - 1);
      PlaceValue(acc, d, p);
      assert acc * Pow10(|s|) + DigitsValue(s) == next * p + DigitsValue(s[1..]);
      MulAtLeastOne(next, p);
      assert GoInt.Wrap64(next) == next;
      AccumulateValue(s[1..], next);
    }
  }

  lemma ShiftPlace(d: int, p: int, x: int, last: int)
    ensures (d * p + x) * 10 + last == d * (10 * p) + (x * 10 + last)
  {
  }

  lemma MulAtLeastOne(a: nat, p: nat)
    requires p >= 1
    ensures a <= a * p
  {
    assert a * p == a + a * (p - 1);
  }

  lemma PlaceValue(acc: nat, d: nat, p: nat)
    ensures acc * (10 * p) + d * p == (acc * 10 + d) * p
  {
  }

  function Pow10(n: nat): (p: nat) {
    if n == 0 then 1 else 10 * Pow10(n - 1)
  }

  lemma {:induction false} Pow10Positive(n: nat)
    ensures Pow10(n) >= 1
  {
    if n > 0 {
      Pow10Positive(n - 1);
    }
  }

  /** The leading digit contributes its place value. */
  lemma {:induction false} DigitsSplit(s: string)
    requires |s| > 0 && AllDigits(s)
    ensures DigitsValue(s) == DigitValue(s[0]) * Pow10(|s| - 1) + DigitsValue(s[1..])
    decreases |s|
  {
    if |s| > 1 {
      var init := s[..|s| - 1];
      assert init[0] == s[0] && init[1..] == s[1..][..|s| - 2];
      DigitsSplit(init);
      var d, p, x, last := DigitValue(s[0]), Pow10(|s| - 2), DigitsValue(init[1..]), DigitValue(s[|s| - 1]);
      assert DigitsValue(s) == DigitsValue(init) * 10 + last;
      assert DigitsValue(s[1..]) == DigitsValue(s[1..][..|s| - 2]) * 10 + last;
      ShiftPlace(d, p, x, last);
    } else {
      assert s[1..] == [];
    }
  }

  /** parseID reads a decimal number that fits in int64 as that number. */
  lemma ParseIdDecimal(s: string)
    requires AllDigits(s) && DigitsValue(s) <= GoInt.MaxInt64
    ensures ParseId(s) == DigitsValue(s)
  {
    AccumulateValue(s, 0);
  }

  /** The first segment whose parseID is positive, else 0. */
  function FirstId(parts: seq<string>): (id: int)
    ensures id == 0 || (id > 0 && exists i :: 0 <= i < |parts| && ParseId(parts[i]) == id
                                             && forall j :: 0 <= j < i ==> ParseId(parts[j]) <= 0)
    ensures id == 0 <==> forall i :: 0 <= i < |parts| ==> ParseId(parts[i]) <= 0
  {
    if |parts| == 0 then 0
    else if ParseId(parts[0]) > 0 then ParseId(parts[0])
    else
      var rest := FirstId(parts[1..]);
      assert forall i :: 1 <= i < |parts| ==> parts[i] == parts[1..][i - 1];
      rest
  }

  /** The resource type names the log uses. */
  function NormalType(t: string): (r: string)
    ensures t !in {"projects", "configs", "config", "keys", "releases"} ==> r == t
  {
    if t == "projects" then "project"
    else if t == "configs" || t == "config" then "config"
    else if t == "keys" then "key"
    else if t == "releases" then "release"
    else t
  }

  /** The path's segments after dropping a leading "api" and then a "v1"
      or "v2". */
  function ResourceSegments(path: string): (parts: seq<string>)
  {
    var all := Split(TrimChar(path, '/'), '/');
    var noApi := if |all| > 0 && all[0] == "api" then all[1..] else all;
    if |noApi| > 0 && (noApi[0] == "v1" || noApi[0] == "v2") then noApi[1..] else noApi
  }

  /** parseResourceFromPath */
  function ParseResource(path: string): (r: (string, int))
    ensures |ResourceSegments(path)| == 0 ==> r == ("", 0)
    ensures |ResourceSegments(path)| > 0 ==> r.0 == NormalType(ResourceSegments(path)[0])
    ensures |ResourceSegments(path)| > 0 ==> r.1 == FirstId(ResourceSegments(path)[1..])
    ensures r.1 >= 0
  {
    var parts := ResourceSegments(path);
    if |parts| == 0 then ("", 0)
    else (NormalType(parts[0]), if |parts| > 1 then FirstId(parts[1..]) else 0)
  }

  /** truncateString on the body's bytes: up to the limit the body is kept
      whole, beyond it its first `max` bytes are followed by "...". */
  function Truncate(body: seq<byte>, max: nat): (r: seq<byte>)
    ensures |body| <= max ==> r == body
    ensures |body| > max ==> |r| == max + 3 && r[..max] == body[..max] && r[max..] == Ellipsis
  {
    if |body| <= max then body else body[..max] + Ellipsis
  }

  /** "..." in UTF-8. */
  const Ellipsis: seq<byte> := [0x2E, 0x2E, 0x2E]

  /** One audit_logs row as the middleware fills it. */
  datatype Entry = Entry(
    action: string,
    resourceType: string,
    resourceId: int,
    ipAddress: string,
    userAgent: string,
    requestBody: seq<byte>,
    userId: Option<int>,
    accessKeyId: Option<int>,
    projectId: int)

  /** AuditMiddleware: the row written after the handler ran, if any. The
      auth context is the one the chain left in place. */
  function AuditEntry(verb: string, path: string, ctx: Option<Middleware.AuthContext>, clientIP: string,
                      userAgent: string, body: seq<byte>): (e: Option<Entry>)
    ensures e.Some? <==> Audited(verb, path) && ctx.Some?
    ensures e.Some? ==> e.value.action == ActionOf(verb)
    ensures e.Some? ==> (e.value.resourceType, e.value.resourceId) == ParseResource(path)
    ensures e.Some? ==> |e.value.requestBody| <= MaxBodyBytes + 3
    ensures e.Some? ==> (e.value.userId.Some? <==> ctx.value.userId > 0)
    ensures e.Some? ==> (e.value.accessKeyId.Some? <==> ctx.value.accessKeyId > 0)
    ensures e.Some? ==> e.value.projectId == (if ctx.value.projectId > 0 then ctx.value.projectId else 0)
  {
    if !Audited(verb, path) then None
    else match ctx
      case None => None
      case Some(c) =>
        var (resourceType, resourceId) := ParseResource(path);
        Some(Entry(
          ActionOf(verb), resourceType, resourceId, clientIP, userAgent, Truncate(body, MaxBodyBytes),
          if c.userId > 0 then Some(c.userId) else None,
          if c.accessKeyId > 0 then Some(c.accessKeyId) else None,
          if c.projectId > 0 then c.projectId else 0))
  }
}
