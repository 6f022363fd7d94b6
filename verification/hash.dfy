/** Content addressing of configuration versions (internal/service/hash.go).
    SHA-256 (FIPS 180-4) is not modelled: it is a parameter `sha` from the
    bytes of the content to a 32-byte digest. Everything the service builds
    on top of it — the hex spelling, the 16-character commit hash, the
    comparisons — is modelled exactly. */
module ContentHash {
  import opened Utf8

  type Digest = d: seq<byte> | |d| == 32 witness seq(32, _ => 0 as byte)

  /** The SHA-256 function, left uninterpreted. */
  type Sha256 = seq<byte> -> Digest

  const CommitHashLen: nat := 16

  /** One lower-case hexadecimal digit, as encoding/hex writes it. */
  function HexDigit(n: nat): (c: char)
    requires n < 16
    ensures ('0' <= c <= '9') || ('a' <= c <= 'f')
  {
    if n < 10 then ('0' as int + n) as char else ('a' as int + n - 10) as char
  }

  predicate IsLowerHex(s: string) {
    forall i :: 0 <= i < |s| ==> ('0' <= s[i] <= '9') || ('a' <= s[i] <= 'f')
  }

  /** hex.EncodeToString: two digits per byte, high nibble first. */
  function Hex(bs: seq<byte>): (s: string)
    ensures |s| == 2 * |bs|
    ensures IsLowerHex(s)
  {
    if |bs| == 0 then ""
    else [HexDigit(bs[0] as nat / 16), HexDigit(bs[0] as nat % 16)] + Hex(bs[1..])
  }

  /** Reading a hex digit back: the inverse of `HexDigit`. */
  function HexValue(c: char): nat {
    if '0' <= c <= '9' then c as nat - '0' as nat
    else if 'a' <= c <= 'f' then c as nat - 'a' as nat + 10
    else 0
  }

  /** hex.DecodeString restricted to even-length lower-case input. */
  function Unhex(s: string): (bs: seq<byte>)
    requires |s| % 2 == 0
    requires IsLowerHex(s)
    ensures 2 * |bs| == |s|
  {
    if |s| == 0 then []
    else [(HexValue(s[0]) * 16 + HexValue(s[1])) as byte] + Unhex(s[2..])
  }

  lemma HexDigitValue(n: nat)
    requires n < 16
    ensures HexValue(HexDigit(n)) == n
  {
  }

  /** Decoding the hex spelling gives back the bytes. */
  lemma {:induction false} UnhexHex(bs: seq<byte>)
    ensures Unhex(Hex(bs)) == bs
  {
    if |bs| > 0 {
      var s := Hex(bs);
      var hi, lo := bs[0] as nat / 16, bs[0] as nat % 16;
      HexDigitValue(hi);
      HexDigitValue(lo);
      assert s[0] == HexDigit(hi) && s[1] == HexDigit(lo);
      assert s[2..] == Hex(bs[1..]);
      UnhexHex(bs[1..]);
    }
  }

  /** Different byte strings have different hex spellings. */
  lemma HexInjective(a: seq<byte>, b: seq<byte>)
    ensures Hex(a) == Hex(b) ==> a == b
  {
    if Hex(a) == Hex(b) {
      UnhexHex(a);
      UnhexHex(b);
    }
  }

  /** GenerateFullHash: the hex spelling of SHA-256 of the UTF-8 bytes. */
  function FullHash(sha: Sha256, content: string): (h: string)
    ensures |h| == 64
    ensures IsLowerHex(h)
    ensures Unhex(h) == sha(Encode(content))
  {
    UnhexHex(sha(Encode(content)));
    Hex(sha(Encode(content)))
  }

  /** GenerateCommitHash: the first 16 characters of the full hash. */
  function CommitHash(sha: Sha256, content: string): (h: string)
    ensures |h| == CommitHashLen
    ensures IsLowerHex(h)
    ensures h == FullHash(sha, content)[..CommitHashLen]
    ensures Unhex(h) == sha(Encode(content))[..CommitHashLen / 2]
  {
    var d := sha(Encode(content));
    PrefixOfHex(d, CommitHashLen / 2);
    UnhexHex(d[..CommitHashLen / 2]);
    FullHash(sha, content)[..CommitHashLen]
  }

  /** A hex prefix of even length spells the corresponding byte prefix. */
  lemma {:induction false} PrefixOfHex(bs: seq<byte>, n: nat)
    requires n <= |bs|
    ensures Hex(bs)[..2 * n] == Hex(bs[..n])
  {
    if n > 0 {
      PrefixOfHex(bs[1..], n - 1);
      assert bs[..n][1..] == bs[1..][..n - 1];
      assert bs[..n][0] == bs[0];
    }
  }

  /** GenerateTimestampedHash, with the clock reading passed in as text. */
  function TimestampedHash(sha: Sha256, content: string, now: string): (h: string)
    ensures h == CommitHash(sha, content + now)
  {
    Hex(sha(Encode(content + now)))[..CommitHashLen]
  }

  /** VerifyHash */
  predicate VerifyHash(sha: Sha256, content: string, expected: string) {
    CommitHash(sha, content) == expected
  }

  /** The commit hash of a content always verifies against that content. */
  lemma VerifyOwnHash(sha: Sha256, content: string)
    ensures VerifyHash(sha, content, CommitHash(sha, content))
  {
  }

  /** A string that is not 16 lower-case hex characters never verifies. */
  lemma VerifyRejectsMalformed(sha: Sha256, content: string, expected: string)
    requires |expected| != CommitHashLen || !IsLowerHex(expected)
    ensures !VerifyHash(sha, content, expected)
  {
  }

  /** CompareContent: equal full hashes. */
  predicate CompareContent(sha: Sha256, c1: string, c2: string) {
    FullHash(sha, c1) == FullHash(sha, c2)
  }

  /** Comparing hashes is exactly comparing digests: no information is lost
      in the hex spelling. */
  lemma CompareIsDigestEquality(sha: Sha256, c1: string, c2: string)
    ensures CompareContent(sha, c1, c2) <==> sha(Encode(c1)) == sha(Encode(c2))
  {
    HexInjective(sha(Encode(c1)), sha(Encode(c2)));
  }

  lemma CompareReflexive(sha: Sha256, c: string)
    ensures CompareContent(sha, c, c)
  {
  }

  lemma CompareSymmetric(sha: Sha256, c1: string, c2: string)
    ensures CompareContent(sha, c1, c2) <==> CompareContent(sha, c2, c1)
  {
  }

  /** Equal full hashes give equal commit hashes, so CompareContent is finer
      than comparing commit hashes. */
  lemma CompareImpliesSameCommit(sha: Sha256, c1: string, c2: string)
    requires CompareContent(sha, c1, c2)
    ensures CommitHash(sha, c1) == CommitHash(sha, c2)
  {
  }
}
