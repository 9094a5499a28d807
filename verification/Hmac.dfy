/** Iterated hash functions and HMAC, as the standards define them: the padding of section 5.1 of
    FIPS 180-4 (section 3 of RFC 1321 for MD5) and the construction of section 2 of RFC 2104.
    The compression function is a parameter. */
module Hmac {
  import opened Arithmetic
  import BigEndian
  import opened Sequences

  type Bytes = seq<bv8>

  /** A hash function in the terms ssl/s3_cbc.c uses: its initial state, `md_transform`,
      `md_final_raw` and the sizes that go with them. */
  datatype Digest<!S(!new)> = Digest(
    init: S,
    transform: (S, Bytes) -> S,
    finalRaw: S -> Bytes,
    mdSize: nat,
    blockSize: nat,
    lengthSize: nat,
    bigEndian: bool)
  {
    /** The sizes of MD5, SHA-1, SHA-224 and SHA-256, or of SHA-384 and SHA-512; the raw state is
        at least as long as the digest and fits a block. */
    ghost predicate Valid() {
      && ((blockSize == 64 && lengthSize == 8 && mdSize in {16, 20, 28, 32})
          || (blockSize == 128 && lengthSize == 16 && mdSize in {48, 64} && bigEndian))
      && forall s :: mdSize <= |finalRaw(s)| <= blockSize
    }
  }

  /** The C conversion to `unsigned char`. */
  function Truncate(n: int): bv8 {
    (n % 256) as bv8
  }

  /** Byte `k` of a number, counted from the least significant. */
  function NumberByte(n: nat, k: nat): bv8 {
    Truncate(n / BigEndian.Pow256(k))
  }

  /** The length field: `bits` on `lengthSize` bytes. */
  function LengthField<S(!new)>(d: Digest<S>, bits: nat): (r: Bytes)
    ensures |r| == d.lengthSize
  {
    seq(d.lengthSize, i requires 0 <= i < d.lengthSize =>
      NumberByte(bits, if d.bigEndian then d.lengthSize - 1 - i else i))
  }

  // ---------- What the length field says ----------

  function Octets(b: seq<BigEndian.Byte>): (r: Bytes)
    ensures |r| == |b| && forall i :: 0 <= i < |b| ==> r[i] == b[i] as bv8
  {
    seq(|b|, i requires 0 <= i < |b| => b[i] as bv8)
  }

  function Reversed(b: Bytes): (r: Bytes)
    ensures |r| == |b| && forall i :: 0 <= i < |b| ==> r[i] == b[|b| - 1 - i]
  {
    seq(|b|, i requires 0 <= i < |b| => b[|b| - 1 - i])
  }

  lemma FieldByte<S(!new)>(d: Digest<S>, bits: nat, i: nat)
    requires i < d.lengthSize
    ensures LengthField(d, bits)[i] == NumberByte(bits, if d.bigEndian then d.lengthSize - 1 - i else i)
  {
    hide NumberByte;
  }

  lemma OctetByte(bits: nat, n: nat, i: nat)
    requires i < n
    ensures Octets(BigEndian.Bytes(bits, n))[i] == NumberByte(bits, n - 1 - i)
  {
    hide BigEndian.Bytes, BigEndian.Pow256, Octets;
    BigEndian.BytesAt(bits, n, i);
  }

  /** The length field holds the number of bits, if it fits: its bytes, in the digest's order, are
      those of a big-endian number that has this value. */
  lemma LengthFieldSays<S(!new)>(d: Digest<S>, bits: nat) returns (number: seq<BigEndian.Byte>)
    ensures |number| == d.lengthSize && (bits < BigEndian.Pow256(d.lengthSize) <==> BigEndian.Value(number) == bits)
    ensures LengthField(d, bits) == if d.bigEndian then Octets(number) else Reversed(Octets(number))
  {
    hide LengthField, NumberByte, Octets, Reversed, BigEndian.Bytes, BigEndian.Value, BigEndian.Pow256;
    number := BigEndian.Bytes(bits, d.lengthSize);
    BigEndian.ValueOfBytes(bits, d.lengthSize);
    var field := if d.bigEndian then Octets(number) else Reversed(Octets(number));
    forall i | 0 <= i < d.lengthSize ensures LengthField(d, bits)[i] == field[i] {
      FieldByte(d, bits, i);
      OctetByte(bits, d.lengthSize, if d.bigEndian then i else d.lengthSize - 1 - i);
    }
  }

  // ---------- Padding ----------

  /** The number of zero bytes between the 0x80 byte and the length field: the fewest that end
      the message on a block boundary. */
  function ZeroPadding<S(!new)>(d: Digest<S>, len: nat): nat
    requires d.blockSize > 0
  {
    (d.blockSize - (len + 1 + d.lengthSize) % d.blockSize) % d.blockSize
  }

  function Pad<S(!new)>(d: Digest<S>, m: Bytes): Bytes
    requires d.blockSize > 0
  {
    m + [0x80] + Repeat(0, ZeroPadding(d, |m|)) + LengthField(d, 8 * |m|)
  }

  /** Padding ends on a block boundary and adds no whole block it could do without: after the 0x80
      byte come fewer zeros than a block has bytes. */
  lemma PadMinimal<S(!new)>(d: Digest<S>, m: Bytes)
    requires d.blockSize > 0
    ensures m + [0x80] <= Pad(d, m)
    ensures |Pad(d, m)| % d.blockSize == 0
    ensures |m| + 1 + d.lengthSize <= |Pad(d, m)| < |m| + 1 + d.lengthSize + d.blockSize
    ensures forall i :: |m| + 1 <= i < |Pad(d, m)| - d.lengthSize ==> Pad(d, m)[i] == 0
    ensures Pad(d, m)[|Pad(d, m)| - d.lengthSize..] == LengthField(d, 8 * |m|)
  {
    hide LengthField, ZeroPadding;
    ZerosFill(d, |m|);
    var zeros := Repeat(0 as bv8, ZeroPadding(d, |m|));
    assert Pad(d, m) == (m + [0x80]) + zeros + LengthField(d, 8 * |m|);
    var n := |m| + 1 + d.lengthSize + ZeroPadding(d, |m|);
    assert |Pad(d, m)| == n;
  }

  lemma ZerosFill<S(!new)>(d: Digest<S>, len: nat)
    requires d.blockSize > 0
    ensures 0 <= ZeroPadding(d, len) < d.blockSize
    ensures (len + 1 + d.lengthSize + ZeroPadding(d, len)) % d.blockSize == 0
  {
    RoundUp(len + 1 + d.lengthSize, d.blockSize);
  }

  lemma RoundUp(n: nat, b: nat)
    requires b > 0
    ensures (n + (b - n % b) % b) % b == 0
  {
    var q := n / b;
    assert n == q * b + n % b;
    if n % b == 0 {
      Remainder(b, q);
    } else {
      assert (b - n % b) % b == b - n % b;
      Distribute(q, 1, b);
      Remainder(b, q + 1);
    }
  }

  lemma Remainder(b: nat, q: nat)
    requires b > 0
    ensures (q * b) % b == 0
  {
    DivMul(q, b);
  }

  /** Block `n` of a byte string that has that many. */
  function BlockAt<S(!new)>(d: Digest<S>, bytes: Bytes, n: nat): Bytes
    requires (n + 1) * d.blockSize <= |bytes|
  {
    assert n * d.blockSize + d.blockSize == (n + 1) * d.blockSize;
    bytes[n * d.blockSize..n * d.blockSize + d.blockSize]
  }

  /** The state after the first `n` blocks. */
  function Absorb<S(!new)>(d: Digest<S>, s: S, bytes: Bytes, n: nat): S
    requires n * d.blockSize <= |bytes|
  {
    if n == 0 then s
    else
      assert (n - 1) * d.blockSize <= n * d.blockSize;
      d.transform(Absorb(d, s, bytes, n - 1), BlockAt(d, bytes, n - 1))
  }

  function Hash<S(!new)>(d: Digest<S>, m: Bytes): (r: Bytes)
    requires d.Valid()
  {
    hide Pad;
    var p := Pad(d, m);
    QuotientTimes(|p|, d.blockSize);
    d.finalRaw(Absorb(d, d.init, p, |p| / d.blockSize))[..d.mdSize]
  }

  function XorAll(s: Bytes, x: bv8): (r: Bytes)
    ensures |r| == |s| && forall i :: 0 <= i < |s| ==> r[i] == s[i] ^ x
  {
    seq(|s|, i requires 0 <= i < |s| => s[i] ^ x)
  }

  /** HMAC with a key that has already been brought to the size of a block. */
  function HmacBlockKey<S(!new)>(d: Digest<S>, key: Bytes, m: Bytes): Bytes
    requires d.Valid() && |key| == d.blockSize
  {
    Hash(d, XorAll(key, 0x5c) + Hash(d, XorAll(key, 0x36) + m))
  }

  function KeyBlock<S(!new)>(d: Digest<S>, key: Bytes): (r: Bytes)
    requires |key| <= d.blockSize
    ensures |r| == d.blockSize
  {
    key + Repeat(0, d.blockSize - |key|)
  }

  /** HMAC of section 2 of RFC 2104; keys longer than a block are hashed first. */
  function HmacOf<S(!new)>(d: Digest<S>, key: Bytes, m: Bytes): Bytes
    requires d.Valid()
  {
    HmacBlockKey(d, KeyBlock(d, if |key| <= d.blockSize then key else Hash(d, key)), m)
  }
}
