/** Request signing: the canonical string a client signs, the freshness
    window on its timestamp, and the middleware that checks both. The MAC is
    the parameter `mac`: hex(HMAC-SHA256(key, message)) as defined in
    section 2 of RFC 2104. */
module Signature {
  import opened Wrappers
  import opened Records
  import opened Text
  import Sorting
  import GoInt
  import Middleware

  /** A request may be this many seconds older or newer than the server. */
  const MaxTimeDiff := 5 * 60

  /** One query parameter with all its values, in request order. */
  datatype Param = Param(key: string, values: seq<string>)

  /** url.Values: each key once. The sequence order stands for Go's map
      order and is arbitrary. */
  predicate DistinctKeys(q: seq<Param>) {
    forall i, j :: 0 <= i < |q| && 0 <= j < |q| && q[i].key == q[j].key ==> i == j
  }

  /** The values of a key, none when it is absent. */
  function Values(q: seq<Param>, k: string): (vs: seq<string>)
    ensures (forall i :: 0 <= i < |q| ==> q[i].key != k) ==> vs == []
  {
    if |q| == 0 then []
    else if q[0].key == k then q[0].values
    else Values(q[1..], k)
  }

  /** c.Query(k): the first value, "" when there is none. */
  function Query(q: seq<Param>, k: string): string {
    var vs := Values(q, k);
    if |vs| == 0 then "" else vs[0]
  }

  // ---------------------------------------------------------------------------
  // The string to sign
  // ---------------------------------------------------------------------------

  /** The query keys that are signed: all but "signature". */
  function SignedKeys(q: seq<Param>): (ks: seq<string>)
    ensures forall k :: k in ks <==> (k != "signature" && exists i :: 0 <= i < |q| && q[i].key == k)
  {
    if |q| == 0 then []
    else
      var rest := SignedKeys(q[1..]);
      assert forall i :: 1 <= i < |q| ==> q[i] == q[1..][i - 1];
      if q[0].key == "signature" then rest else [q[0].key] + rest
  }

  /** sort.Strings' order. */
  function StringLe(): (string, string) -> bool {
    (a: string, b: string) => LessEq(a, b)
  }

  lemma StringLePreorder()
    ensures Sorting.TotalPreorder(StringLe())
  {
    forall a: string, b: string ensures LessEq(a, b) || LessEq(b, a) {
      LessTotal(a, b);
    }
    forall a: string, b: string, c: string | LessEq(a, b) && LessEq(b, c) ensures LessEq(a, c) {
      LessTransitive(a, b, c);
    }
  }

  /** The signed keys in ascending order. */
  function SortedKeys(q: seq<Param>): (ks: seq<string>)
    ensures Sorting.SortedBy(ks, StringLe())
    ensures forall k :: k in ks <==> (k != "signature" && exists i :: 0 <= i < |q| && q[i].key == k)
  {
    StringLePreorder();
    var ks := Sorting.Sort(SignedKeys(q), StringLe());
    Sorting.SortKeepsElementsAll(SignedKeys(q), StringLe());
    ks
  }

  /** "k=v" for each key in turn and each of its values in order. */
  function Pairs(q: seq<Param>, keys: seq<string>): (ps: seq<string>)
  {
    if |keys| == 0 then []
    else Assignments(keys[0], Values(q, keys[0])) + Pairs(q, keys[1..])
  }

  function Assignments(k: string, vs: seq<string>): (ps: seq<string>)
    ensures |ps| == |vs|
    ensures forall i :: 0 <= i < |vs| ==> ps[i] == k + "=" + vs[i]
  {
    if |vs| == 0 then [] else [k + "=" + vs[0]] + Assignments(k, vs[1..])
  }

  /** The query part of the string to sign. */
  function QueryPart(q: seq<Param>): string {
    Join(Pairs(q, SortedKeys(q)), "&")
  }

  /** buildStringToSign: the HTTP method, path, query part, access key, timestamp
      and nonce, one per line. */
  function StringToSign(verb: string, path: string, q: seq<Param>, accessKey: string, timestamp: string,
                        nonce: string): (s: string)
    ensures s == verb + "\n" + path + "\n" + QueryPart(q) + "\n" + accessKey + "\n" + timestamp + "\n" + nonce
  {
    JoinSix(verb, path, QueryPart(q), accessKey, timestamp, nonce, "\n");
    Join([verb, path, QueryPart(q), accessKey, timestamp, nonce], "\n")
  }

  lemma JoinSix(a: string, b: string, c: string, d: string, e: string, f: string, sep: string)
    ensures Join([a, b, c, d, e, f], sep) == a + sep + b + sep + c + sep + d + sep + e + sep + f
  {
    assert [a, b, c, d, e, f] == [a] + [b, c, d, e, f];
    JoinConsFirst(a, [b, c, d, e, f], sep);
    assert [b, c, d, e, f] == [b] + [c, d, e, f];
    JoinConsFirst(b, [c, d, e, f], sep);
    assert [c, d, e, f] == [c] + [d, e, f];
    JoinConsFirst(c, [d, e, f], sep);
    assert [d, e, f] == [d] + [e, f];
    JoinConsFirst(d, [e, f], sep);
    assert [e, f] == [e] + [f];
    JoinConsFirst(e, [f], sep);
  }

  /** The parameters without "signature". */
  function WithoutSignature(q: seq<Param>): (r: seq<Param>)
    ensures forall i :: 0 <= i < |r| ==> r[i].key != "signature"
  {
    if |q| == 0 then []
    else if q[0].key == "signature" then WithoutSignature(q[1..])
    else [q[0]] + WithoutSignature(q[1..])
  }

  lemma {:induction false} WithoutSignatureValues(q: seq<Param>, k: string)
    requires k != "signature"
    ensures Values(WithoutSignature(q), k) == Values(q, k)
  {
    if |q| > 0 {
      WithoutSignatureValues(q[1..], k);
    }
  }

  lemma {:induction false} WithoutSignatureKeys(q: seq<Param>)
    ensures SignedKeys(WithoutSignature(q)) == SignedKeys(q)
  {
    if |q| > 0 {
      WithoutSignatureKeys(q[1..]);
      if q[0].key != "signature" {
        assert ([q[0]] + WithoutSignature(q[1..]))[1..] == WithoutSignature(q[1..]);
      }
    }
  }

  lemma {:induction false} PairsAgree(q: seq<Param>, q': seq<Param>, keys: seq<string>)
    requires forall k :: k in keys ==> Values(q, k) == Values(q', k)
    ensures Pairs(q, keys) == Pairs(q', keys)
  {
    if |keys| > 0 {
      assert keys[0] in keys;
      PairsAgree(q, q', keys[1..]);
    }
  }

  /** A "signature" query parameter is not part of what is signed. */
  lemma SignatureParamIgnored(q: seq<Param>)
    ensures QueryPart(WithoutSignature(q)) == QueryPart(q)
  {
    WithoutSignatureKeys(q);
    var keys := SortedKeys(q);
    forall k | k in keys ensures Values(WithoutSignature(q), k) == Values(q, k) {
      WithoutSignatureValues(q, k);
    }
    PairsAgree(WithoutSignature(q), q, keys);
  }

  // ---------------------------------------------------------------------------
  // The freshness window
  // ---------------------------------------------------------------------------

  /** abs over int64 as written: negating MinInt64 wraps to itself. */
  function AbsInt64(n: int): (r: int)
    requires GoInt.IsInt64(n)
    ensures GoInt.IsInt64(r)
    ensures n != GoInt.MinInt64 ==> r >= 0 && (r == n || r == -n)
  {
    if n < 0 then GoInt.Wrap64(-n) else n
  }

  /** The timestamp test as written: abs(now-ts) > MaxTimeDiff rejects, both
      the difference and abs computed in wrapping int64 arithmetic. */
  predicate FreshAsWritten(now: int, ts: int)
    requires GoInt.IsInt64(now) && GoInt.IsInt64(ts)
  {
    !(AbsInt64(GoInt.Wrap64(now - ts)) > MaxTimeDiff)
  }

  /** The absolute value. */
  function Abs(n: int): (r: nat)
    ensures r == n || r == -n
  {
    if n < 0 then -n else n
  }

  /** The intended test: the timestamp is within MaxTimeDiff seconds of now. */
  predicate Fresh(now: int, ts: int) {
    Abs(now - ts) <= MaxTimeDiff
  }

  lemma FreshWindow(now: int, ts: int)
    ensures Fresh(now, ts) <==> now - MaxTimeDiff <= ts <= now + MaxTimeDiff
  {
  }

  /** abs is symmetric. */
  lemma AbsSymmetric(n: int)
    ensures Abs(-n) == Abs(n)
  {
  }

  /** As written, abs(MinInt64) is negative, and a clock reading of 0 with
      timestamp MinInt64 passes the window although the two are 2^63
      seconds apart. The same happens for every `now` at ts = now - 2^63. */
  lemma AncientTimestampAccepted()
    ensures AbsInt64(GoInt.MinInt64) == GoInt.MinInt64 < 0
    ensures FreshAsWritten(0, GoInt.MinInt64)
    ensures !Fresh(0, GoInt.MinInt64)
  {
    assert GoInt.Wrap64(0 - GoInt.MinInt64) == GoInt.MinInt64;
  }

  /** Away from that one wrap-around, the written test and the intended one
      agree. */
  lemma FreshAgrees(now: int, ts: int)
    requires GoInt.IsInt64(now) && GoInt.IsInt64(ts)
    requires GoInt.MinInt64 < now - ts <= GoInt.MaxInt64
    ensures FreshAsWritten(now, ts) <==> Fresh(now, ts)
  {
  }

  // ---------------------------------------------------------------------------
  // The middleware
  // ---------------------------------------------------------------------------

  /** hex(HMAC-SHA256(key, message)) */
  type Mac = (string, string) -> string

  /** The parts of a request the middleware reads. */
  datatype Request = Request(
    verb: string,
    path: string,
    query: seq<Param>,
    accessKeyHeader: string,
    signature: string,
    timestamp: string,
    nonce: string)

  function AccessKeyOf(req: Request): string {
    Middleware.RequestAccessKey(req.accessKeyHeader, Query(req.query, "access_key"))
  }

  datatype Gate = Pass | Reject(status: int, code: string)

  /** SignatureAuth, with the freshness test as written in int64 arithmetic.
      A request without a signature passes unchecked, for older clients. */
  function SignatureAuth(keys: seq<ProjectKey>, mac: Mac, req: Request, now: int): (g: Gate)
    requires GoInt.IsInt64(now)
    ensures AccessKeyOf(req) == "" ==> g == Reject(401, "UNAUTHORIZED")
    ensures AccessKeyOf(req) != "" && req.signature == "" ==> g == Pass
    ensures g.Reject? ==> g.status == 401
    ensures g == Pass && req.signature != "" ==>
      && GoInt.ParseInt(req.timestamp).Value?
      && FreshAsWritten(now, GoInt.ParseInt(req.timestamp).n)
      && Middleware.ActiveKey(keys, AccessKeyOf(req)).Some?
      && req.signature == mac(Middleware.ActiveKey(keys, AccessKeyOf(req)).value.secretKeyHash,
                              StringToSign(req.verb, req.path, req.query, AccessKeyOf(req), req.timestamp, req.nonce))
  {
    var accessKey := AccessKeyOf(req);
    if accessKey == "" then Reject(401, "UNAUTHORIZED")
    else if req.signature == "" then Pass
    else match GoInt.ParseInt(req.timestamp)
      case SyntaxError => Reject(401, "INVALID_SIGNATURE")
      case RangeError(_) => Reject(401, "INVALID_SIGNATURE")
      case Value(ts) =>
        if !FreshAsWritten(now, ts) then Reject(401, "INVALID_SIGNATURE")
        else match Middleware.ActiveKey(keys, accessKey)
          case None => Reject(401, "UNAUTHORIZED")
          case Some(key) =>
            var expected := mac(key.secretKeyHash, StringToSign(req.verb, req.path, req.query, accessKey, req.timestamp, req.nonce));
            if req.signature != expected then Reject(401, "INVALID_SIGNATURE") else Pass
  }

  /** A client holding an active key that signs the canonical string with
      the key's secret, at a time within the window, is let through. */
  lemma SignedRequestPasses(keys: seq<ProjectKey>, mac: Mac, req: Request, now: int, ts: int)
    requires GoInt.IsInt64(now)
    requires AccessKeyOf(req) != "" && Middleware.ActiveKey(keys, AccessKeyOf(req)).Some?
    requires GoInt.IsInt64(ts) && req.timestamp == IntToDecimal(ts) && Fresh(now, ts)
    requires req.signature == mac(Middleware.ActiveKey(keys, AccessKeyOf(req)).value.secretKeyHash,
                                  StringToSign(req.verb, req.path, req.query, AccessKeyOf(req), req.timestamp, req.nonce))
    requires req.signature != ""
    ensures SignatureAuth(keys, mac, req, now) == Pass
  {
    TimestampParses(ts);
    FreshAgrees(now, ts);
  }

  /** The decimal spelling of an int64 parses back to it. */
  lemma TimestampParses(ts: int)
    requires GoInt.IsInt64(ts)
    ensures GoInt.ParseInt(IntToDecimal(ts)) == GoInt.Value(ts)
  {
    if ts >= 0 {
      GoInt.ParseDecimal(ts);
    } else {
      var body := NatToDecimal(-ts);
      DecimalRoundTrip(-ts);
      assert ("-" + body)[1..] == body;
      assert GoInt.Unsigned("-" + body) == body;
    }
  }

  /** Replays outside the window are refused whatever the signature, as
      long as now - ts fits in an int64 and is not MinInt64. */
  lemma StaleRequestRefused(keys: seq<ProjectKey>, mac: Mac, req: Request, now: int)
    requires GoInt.IsInt64(now)
    requires AccessKeyOf(req) != "" && req.signature != ""
    requires GoInt.ParseInt(req.timestamp).Value? && !Fresh(now, GoInt.ParseInt(req.timestamp).n)
    requires GoInt.MinInt64 < now - GoInt.ParseInt(req.timestamp).n <= GoInt.MaxInt64
    ensures SignatureAuth(keys, mac, req, now) == Reject(401, "INVALID_SIGNATURE")
  {
    FreshAgrees(now, GoInt.ParseInt(req.timestamp).n);
  }

  /** As written, a request signed with timestamp MinInt64 passes at clock
      reading 0, 2^63 seconds outside the window. */
  lemma AncientRequestPasses(keys: seq<ProjectKey>, mac: Mac, req: Request)
    requires AccessKeyOf(req) != "" && Middleware.ActiveKey(keys, AccessKeyOf(req)).Some?
    requires req.timestamp == IntToDecimal(GoInt.MinInt64)
    requires req.signature == mac(Middleware.ActiveKey(keys, AccessKeyOf(req)).value.secretKeyHash,
                                  StringToSign(req.verb, req.path, req.query, AccessKeyOf(req), req.timestamp, req.nonce))
    requires req.signature != ""
    ensures SignatureAuth(keys, mac, req, 0) == Pass
    ensures !Fresh(0, GoInt.ParseInt(req.timestamp).n)
  {
    TimestampParses(GoInt.MinInt64);
    AncientTimestampAccepted();
  }
}
