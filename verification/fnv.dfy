/** The 32-bit FNV-1a hash (hash/fnv's New32a), modelled exactly on `bv32`:
    start from the offset basis, then for every byte xor it in and multiply
    by the FNV prime, wrapping modulo 2^32. */
module Fnv {
  import opened Utf8

  const OffsetBasis: bv32 := 2166136261
  const Prime: bv32 := 16777619

  /** One round: xor the byte into the state, then multiply by the prime. */
  function Step(h: bv32, b: byte): bv32 {
    (h ^ (b as int as bv32)) * Prime
  }

  /** Feeds `bs` to a hash whose state is `h`. */
  function HashFrom(h: bv32, bs: seq<byte>): bv32
    decreases |bs|
  {
    if |bs| == 0 then h else HashFrom(Step(h, bs[0]), bs[1..])
  }

  /** Sum32 after writing `bs` to a fresh New32a. */
  function Hash32(bs: seq<byte>): bv32 {
    HashFrom(OffsetBasis, bs)
  }

  /** Writing in pieces is writing the concatenation: h.Write(a); h.Write(b)
      equals h.Write(a + b). */
  lemma {:induction false} HashFromAppend(h: bv32, a: seq<byte>, b: seq<byte>)
    ensures HashFrom(h, a + b) == HashFrom(HashFrom(h, a), b)
    decreases |a|
  {
    if |a| == 0 {
      assert a + b == b;
    } else {
      assert (a + b)[1..] == a[1..] + b;
      HashFromAppend(Step(h, a[0]), a[1..], b);
    }
  }

  /** Appending one byte applies one more round to the previous sum. */
  lemma HashSnoc(bs: seq<byte>, b: byte)
    ensures Hash32(bs + [b]) == Step(Hash32(bs), b)
  {
    HashFromAppend(OffsetBasis, bs, [b]);
  }

  /** The published FNV-1a test vectors, on bytes. */
  lemma ByteVectors()
    ensures Hash32([]) == 0x811c9dc5
    ensures Hash32([0x61]) == 0xe40c292c
    ensures Hash32([0x66, 0x6f, 0x6f, 0x62, 0x61, 0x72]) == 0xbf9cf968
  {
    assert Step(OffsetBasis, 0x61) == 0xe40c292c;
    var bs: seq<byte> := [0x66, 0x6f, 0x6f, 0x62, 0x61, 0x72];
    assert Step(OffsetBasis, 0x66) == 0xe30c2799;
    assert Step(0xe30c2799, 0x6f) == 0x6222e842;
    assert Step(0x6222e842, 0x6f) == 0xa9f37ed7;
    assert Step(0xa9f37ed7, 0x62) == 0x3f5076ef;
    assert Step(0x3f5076ef, 0x61) == 0x39aaa18a;
    assert Step(0x39aaa18a, 0x72) == 0xbf9cf968;
    assert bs[1..][1..][1..][1..][1..][1..] == [];
  }

  /** The same vectors on text: "" hashes to the offset basis, "a" to
      0xe40c292c and "foobar" to 0xbf9cf968. */
  lemma TestVectors()
    ensures Hash32(Encode("")) == 0x811c9dc5
    ensures Hash32(Encode("a")) == 0xe40c292c
    ensures Hash32(Encode("foobar")) == 0xbf9cf968
  {
    EncodeAscii("a");
    EncodeAscii("foobar");
    assert Encode("a") == [0x61];
    assert Encode("foobar") == [0x66, 0x6f, 0x6f, 0x62, 0x61, 0x72];
    ByteVectors();
  }
}
