/** IPv4 addresses and prefixes as net.ParseIP / net.ParseCIDR accept them for
    dotted-quad text (Go 1.17 and later reject octets with leading zeros), and
    the three pattern forms of the key whitelist: exact text, CIDR prefix
    (RFC 4632 section 3.1) and dot-separated wildcard. IPv6 text is not
    modelled: it never parses here. */
module IPv4 {
  import opened Wrappers
  import opened Text

  type Octet = n: nat | n < 256

  datatype Addr = Addr(o0: Octet, o1: Octet, o2: Octet, o3: Octet)

  /** One octet as the parser accepts it: 1 to 3 digits, no leading zero, at most 255. */
  predicate IsOctetText(p: string) {
    |p| >= 1 && AllDigits(p) && (|p| == 1 || p[0] != '0') && DigitsValue(p) <= 255
  }

  /** net.ParseIP restricted to IPv4 text. */
  function ParseAddr(s: string): (r: Option<Addr>)
    ensures r.Some? <==> (|Split(s, '.')| == 4 && forall i :: 0 <= i < 4 ==> IsOctetText(Split(s, '.')[i]))
  {
    var parts := Split(s, '.');
    if |parts| == 4 && IsOctetText(parts[0]) && IsOctetText(parts[1])
       && IsOctetText(parts[2]) && IsOctetText(parts[3])
    then
      Some(Addr(DigitsValue(parts[0]), DigitsValue(parts[1]), DigitsValue(parts[2]), DigitsValue(parts[3])))
    else None
  }

  /** IP.String() for an IPv4 address. */
  function FormatAddr(a: Addr): string {
    NatToDecimal(a.o0) + "." + (NatToDecimal(a.o1) + "." + (NatToDecimal(a.o2) + "." + NatToDecimal(a.o3)))
  }

  lemma OctetText(n: nat)
    requires n <= 255
    ensures IsOctetText(NatToDecimal(n))
    ensures DigitsValue(NatToDecimal(n)) == n
    ensures '.' !in NatToDecimal(n)
  {
    DecimalRoundTrip(n);
    var s := NatToDecimal(n);
    assert forall i :: 0 <= i < |s| ==> IsDigit(s[i]);
  }

  /** Splitting `p + "." + rest` when `p` has no dot. */
  lemma {:induction false} SplitDotPrefix(p: string, rest: string)
    requires '.' !in p
    ensures Split(p + "." + rest, '.') == [p] + Split(rest, '.')
    decreases |p|
  {
    if |p| == 0 {
      assert p + "." + rest == ['.'] + rest;
      assert (['.'] + rest)[1..] == rest;
    } else {
      SplitDotPrefix(p[1..], rest);
      assert (p + "." + rest)[1..] == p[1..] + "." + rest;
      assert [p[0]] + p[1..] == p;
    }
  }

  lemma {:induction false} SplitNoDot(p: string)
    requires '.' !in p
    ensures Split(p, '.') == [p]
    decreases |p|
  {
    if |p| > 0 {
      SplitNoDot(p[1..]);
      assert [p[0]] + p[1..] == p;
    }
  }

  /** Four dot-free parts joined with dots split back into those parts. */
  lemma SplitFour(p0: string, p1: string, p2: string, p3: string)
    requires '.' !in p0 && '.' !in p1 && '.' !in p2 && '.' !in p3
    ensures Split(p0 + "." + (p1 + "." + (p2 + "." + p3)), '.') == [p0, p1, p2, p3]
  {
    SplitNoDot(p3);
    SplitDotPrefix(p2, p3);
    SplitDotPrefix(p1, p2 + "." + p3);
    SplitDotPrefix(p0, p1 + "." + (p2 + "." + p3));
  }

  /** Printing then parsing an address gives it back. */
  lemma FormatThenParse(a: Addr)
    ensures ParseAddr(FormatAddr(a)) == Some(a)
  {
    OctetText(a.o0);
    OctetText(a.o1);
    OctetText(a.o2);
    OctetText(a.o3);
    SplitFour(NatToDecimal(a.o0), NatToDecimal(a.o1), NatToDecimal(a.o2), NatToDecimal(a.o3));
  }

  /** Four parts joined with dots, as strings.Join builds them. */
  lemma JoinFour(parts: seq<string>)
    requires |parts| == 4
    ensures Join(parts, ".") == parts[0] + "." + (parts[1] + "." + (parts[2] + "." + parts[3]))
  {
    assert parts == [parts[0]] + [parts[1], parts[2], parts[3]];
    JoinConsFirst(parts[0], [parts[1], parts[2], parts[3]], ".");
    assert [parts[1], parts[2], parts[3]] == [parts[1]] + [parts[2], parts[3]];
    JoinConsFirst(parts[1], [parts[2], parts[3]], ".");
    assert [parts[2], parts[3]] == [parts[2]] + [parts[3]];
    JoinConsFirst(parts[2], [parts[3]], ".");
  }

  /** Accepted text is already canonical: parsing then printing gives the text back. */
  lemma ParseThenFormat(s: string)
    requires ParseAddr(s).Some?
    ensures FormatAddr(ParseAddr(s).value) == s
  {
    var parts := Split(s, '.');
    forall i | 0 <= i < 4 ensures NatToDecimal(DigitsValue(parts[i])) == parts[i] {
      CanonicalDecimal(parts[i]);
    }
    SplitJoin(s, '.');
    JoinFour(parts);
  }

  /** A digit string without leading zero is the decimal spelling of its value. */
  lemma {:induction false} CanonicalDecimal(p: string)
    requires |p| >= 1 && AllDigits(p) && (|p| == 1 || p[0] != '0')
    ensures NatToDecimal(DigitsValue(p)) == p
    decreases |p|
  {
    if |p| == 1 {
      assert DigitsValue(p) == DigitsValue(p[..0]) * 10 + DigitValue(p[0]);
    } else {
      var init := p[..|p| - 1];
      assert init[0] == p[0];
      CanonicalDecimal(init);
      LeadingDigitBound(init);
      assert DigitsValue(p) == DigitsValue(init) * 10 + DigitValue(p[|p| - 1]);
      assert DigitsValue(p) / 10 == DigitsValue(init);
      assert DigitsValue(p) % 10 == DigitValue(p[|p| - 1]);
      assert DigitChar(DigitValue(p[|p| - 1])) == p[|p| - 1];
      assert p == init + [p[|p| - 1]];
    }
  }

  /** A digit string that does not start with 0 has a positive value. */
  lemma {:induction false} LeadingDigitBound(p: string)
    requires |p| >= 1 && AllDigits(p) && p[0] != '0'
    ensures DigitsValue(p) >= 1
    decreases |p|
  {
    if |p| > 1 {
      var init := p[..|p| - 1];
      assert init[0] == p[0];
      LeadingDigitBound(init);
    }
  }

  // ---------------------------------------------------------------------------
  // CIDR prefixes
  // ---------------------------------------------------------------------------

  /** The `k` low bits of `n`, most significant first. */
  function Bits(n: nat, k: nat): (bs: seq<bool>)
    ensures |bs| == k
  {
    if k == 0 then [] else Bits(n / 2, k - 1) + [n % 2 == 1]
  }

  /** The value of a bit string, most significant first. */
  function BitsValue(bs: seq<bool>): nat {
    if |bs| == 0 then 0 else 2 * BitsValue(bs[..|bs| - 1]) + (if bs[|bs| - 1] then 1 else 0)
  }

  function Pow2(k: nat): nat {
    if k == 0 then 1 else 2 * Pow2(k - 1)
  }

  /** Bits(n, k) spells n exactly when n fits in k bits. */
  lemma {:induction false} BitsRoundTrip(n: nat, k: nat)
    requires n < Pow2(k)
    ensures BitsValue(Bits(n, k)) == n
  {
    if k > 0 {
      BitsRoundTrip(n / 2, k - 1);
      var bs := Bits(n, k);
      assert bs[..|bs| - 1] == Bits(n / 2, k - 1);
    }
  }

  /** The 32 bits of an address, first octet first. */
  function AddrBits(a: Addr): (bs: seq<bool>)
    ensures |bs| == 32
  {
    Bits(a.o0, 8) + Bits(a.o1, 8) + Bits(a.o2, 8) + Bits(a.o3, 8)
  }

  lemma OctetBitsInjective(x: Octet, y: Octet)
    requires Bits(x, 8) == Bits(y, 8)
    ensures x == y
  {
    assert Pow2(8) == 256 by {
      assert Pow2(1) == 2 && Pow2(2) == 4 && Pow2(3) == 8 && Pow2(4) == 16;
      assert Pow2(5) == 32 && Pow2(6) == 64 && Pow2(7) == 128;
    }
    BitsRoundTrip(x, 8);
    BitsRoundTrip(y, 8);
  }

  /** An IPv4 network: the address written before the '/' and the prefix
      length. Only the first `prefixLen` bits of the address take part in
      containment, so clearing the host bits (as IPNet does) is left implicit. */
  datatype Network = Network(base: Addr, prefixLen: nat)

  /** IPNet.Contains: the first `prefixLen` bits agree. */
  predicate NetContains(net: Network, ip: Addr)
    requires net.prefixLen <= 32
  {
    AddrBits(ip)[..net.prefixLen] == AddrBits(net.base)[..net.prefixLen]
  }

  /** The position of the first `c` in `s`. */
  function IndexOf(s: string, c: char): (r: Option<nat>)
    ensures r.Some? ==> r.value < |s| && s[r.value] == c && c !in s[..r.value]
    ensures r.None? <==> c !in s
  {
    if |s| == 0 then None
    else if s[0] == c then Some(0)
    else match IndexOf(s[1..], c)
      case None => None
      case Some(i) =>
        assert s[..i + 1] == [s[0]] + s[1..][..i];
        Some(i + 1)
  }

  /** net.ParseCIDR: address text, then '/', then a decimal prefix length of at most 32. */
  function ParseCIDR(s: string): (r: Option<Network>)
    ensures r.Some? ==> r.value.prefixLen <= 32
    ensures r.Some? ==> '/' in s
  {
    match IndexOf(s, '/')
    case None => None
    case Some(i) =>
      var addr, mask := s[..i], s[i + 1..];
      match ParseAddr(addr)
      case None => None
      case Some(a) =>
        if |mask| >= 1 && AllDigits(mask) && DigitsValue(mask) <= 32 then
          Some(Network(a, DigitsValue(mask)))
        else None
  }

  /** A network contains the address it was written with. */
  lemma ContainsOwnAddress(a: Addr, n: nat)
    requires n <= 32
    ensures NetContains(Network(a, n), a)
  {
  }

  /** A /32 network contains exactly its own address. */
  lemma HostRoute(base: Addr, ip: Addr)
    ensures NetContains(Network(base, 32), ip) <==> ip == base
  {
    if NetContains(Network(base, 32), ip) {
      var x, y := AddrBits(ip), AddrBits(base);
      assert x == y;
      assert x[..8] == Bits(ip.o0, 8) && y[..8] == Bits(base.o0, 8);
      assert x[8..16] == Bits(ip.o1, 8) && y[8..16] == Bits(base.o1, 8);
      assert x[16..24] == Bits(ip.o2, 8) && y[16..24] == Bits(base.o2, 8);
      assert x[24..] == Bits(ip.o3, 8) && y[24..] == Bits(base.o3, 8);
      OctetBitsInjective(ip.o0, base.o0);
      OctetBitsInjective(ip.o1, base.o1);
      OctetBitsInjective(ip.o2, base.o2);
      OctetBitsInjective(ip.o3, base.o3);
    }
  }

  /** A /0 network contains every address. */
  lemma DefaultRoute(base: Addr, ip: Addr)
    ensures NetContains(Network(base, 0), ip)
  {
  }

  // ---------------------------------------------------------------------------
  // Whitelist patterns
  // ---------------------------------------------------------------------------

  /** Dot-separated wildcard: as many segments as the client text, each "*" or equal. */
  predicate WildcardMatch(clientIP: string, pattern: string) {
    var pp, ip := Split(pattern, '.'), Split(clientIP, '.');
    |pp| == |ip| && forall i :: 0 <= i < |pp| ==> pp[i] == "*" || pp[i] == ip[i]
  }

  /** CIDR match: a valid prefix and a parseable client address inside it. */
  predicate CidrMatch(clientIP: string, pattern: string) {
    match ParseCIDR(pattern)
    case None => false
    case Some(net) =>
      match ParseAddr(clientIP)
      case None => false
      case Some(ip) => NetContains(net, ip)
  }

  /** The whitelist matcher shared by the access service and the access-key
      middleware: exact text first; then a pattern with '/' is a CIDR prefix and
      nothing else; then a pattern with '*' is a wildcard; anything else fails. */
  predicate MatchIP(clientIP: string, pattern: string) {
    if clientIP == pattern then true
    else if '/' in pattern then CidrMatch(clientIP, pattern)
    else if '*' in pattern then WildcardMatch(clientIP, pattern)
    else false
  }

  lemma MatchIPCases(clientIP: string, pattern: string)
    ensures MatchIP(clientIP, pattern) <==>
      (clientIP == pattern
       || ('/' in pattern && CidrMatch(clientIP, pattern))
       || ('/' !in pattern && '*' in pattern && WildcardMatch(clientIP, pattern)))
  {
  }

}
