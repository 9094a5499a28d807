/** Known answers for the padding and the HMAC of Hmac.dfy and for a whole record (ssl/s3_cbc.c),
    with a hash function simple enough to be worked out by hand: it
    combines the blocks with exclusive or and adds up the two halves of the result. */
module KnownMacs {
  import opened Arithmetic
  import opened Hmac
  import opened CbcDigest
  import opened Sequences

  function Xor(a: bv8, b: bv8): bv8 {
    a ^ b
  }

  function Sum(a: bv8, b: bv8): bv8 {
    a + b
  }

  function Combine(s: Bytes, t: Bytes): (r: Bytes)
    requires |s| == |t|
    ensures |r| == |s| && forall i {:trigger r[i]} :: 0 <= i < |s| ==> r[i] == Xor(s[i], t[i])
  {
    seq(|s|, i requires 0 <= i < |s| => Xor(s[i], t[i]))
  }

  function Fold(s: Bytes): (r: Bytes)
    requires |s| == 64
    ensures |r| == 32 && forall i {:trigger r[i]} :: 0 <= i < 32 ==> r[i] == Sum(s[i], s[32 + i])
  {
    seq(32, i requires 0 <= i < 32 => Sum(s[i], s[32 + i]))
  }

  function SumDigest(bigEndian: bool): (d: Digest<Bytes>)
    ensures d.Valid() && d.mdSize == 32 && d.blockSize == 64 && d.lengthSize == 8 && d.bigEndian == bigEndian
  {
    Digest(Repeat(0, 64),
           (s: Bytes, block: Bytes) => if |s| == |block| == 64 then Combine(s, block) else s,
           (s: Bytes) => if |s| == 64 then Fold(s) else Repeat(0, 32),
           32, 64, 8, bigEndian)
  }

  function Constant(mdSize: nat, blockSize: nat, lengthSize: nat, bigEndian: bool): Digest<nat> {
    Digest(0, (s: nat, block: Bytes) => s, (s: nat) => Repeat(0, mdSize), mdSize, blockSize, lengthSize, bigEndian)
  }

  /** The sizes the source sets for MD5, SHA-1 and the four members of SHA-2 are admitted. */
  lemma SixDigests()
    ensures Constant(16, 64, 8, false).Valid() && Constant(20, 64, 8, true).Valid()
    ensures Constant(28, 64, 8, true).Valid() && Constant(32, 64, 8, true).Valid()
    ensures Constant(48, 128, 16, true).Valid() && Constant(64, 128, 16, true).Valid()
  {
  }

  // ---------- Length fields and padding ----------

  function Zeros(n: nat): Bytes {
    Repeat(0, n)
  }

  lemma SmallQuotients(n: nat)
    requires n < 0x1_0000
    ensures n / 0x1_0000 == 0 && n / 0x100_0000 == 0
  {
  }

  lemma LowBytes(n: nat)
    requires n < 0x1_0000
    ensures NumberByte(n, 0) == Truncate(n) && NumberByte(n, 1) == Truncate(n / 0x100)
    ensures forall i :: i >= 2 ==> NumberByte(n, i) == 0
  {
    assert Truncate(0) == 0;
    hide NumberByte, Truncate;
    FourByteNumber(n);
    SmallQuotients(n);
  }

  lemma TwoByteField(bigEndian: bool, n: nat, high: bv8, low: bv8)
    requires n < 0x1_0000 && Truncate(n / 0x100) == high && Truncate(n) == low
    ensures LengthField(SumDigest(bigEndian), n) == if bigEndian then Zeros(6) + [high, low] else [low, high] + Zeros(6)
  {
    hide NumberByte, Truncate;
    LowBytes(n);
  }

  lemma KnownFields(bigEndian: bool)
    ensures LengthField(SumDigest(bigEndian), 24) == if bigEndian then Zeros(6) + [0, 0x18] else [0x18, 0] + Zeros(6)
    ensures LengthField(SumDigest(bigEndian), 536) == if bigEndian then Zeros(6) + [2, 0x18] else [0x18, 2] + Zeros(6)
    ensures LengthField(SumDigest(bigEndian), 616) == if bigEndian then Zeros(6) + [2, 0x68] else [0x68, 2] + Zeros(6)
    ensures LengthField(SumDigest(bigEndian), 768) == if bigEndian then Zeros(6) + [3, 0] else [0, 3] + Zeros(6)
  {
    hide LengthField, Truncate;
    Truncations();
    TwoByteField(bigEndian, 24, 0, 0x18);
    TwoByteField(bigEndian, 536, 2, 0x18);
    TwoByteField(bigEndian, 616, 2, 0x68);
    TwoByteField(bigEndian, 768, 3, 0);
  }

  lemma Truncations()
    ensures Truncate(24) == 0x18 && Truncate(536) == 0x18 && Truncate(616) == 0x68 && Truncate(768) == 0
    ensures Truncate(0) == 0 && Truncate(2) == 2 && Truncate(3) == 3
  {
    Remainders();
  }

  lemma Remainders()
    ensures 24 % 256 == 0x18 && 536 % 256 == 0x18 && 616 % 256 == 0x68 && 768 % 256 == 0
  {
  }

  /** The three bytes "abc" in one padded block, in both byte orders: section 5.1.1 of FIPS 180-4
      and section 3 of RFC 1321. */
  lemma AbcPadded()
    ensures Pad(SumDigest(true), [0x61, 0x62, 0x63]) ==
            [0x61, 0x62, 0x63, 0x80] + Zeros(52) + [0, 0, 0, 0, 0, 0, 0, 0x18]
    ensures Pad(SumDigest(false), [0x61, 0x62, 0x63]) ==
            [0x61, 0x62, 0x63, 0x80] + Zeros(52) + [0x18, 0, 0, 0, 0, 0, 0, 0]
  {
    hide LengthField, SumDigest, Pad;
    KnownFields(true);
    KnownFields(false);
    AbcAndField(true);
    AbcAndField(false);
  }

  lemma AbcAndField(bigEndian: bool)
    ensures Pad(SumDigest(bigEndian), [0x61, 0x62, 0x63]) ==
            [0x61, 0x62, 0x63, 0x80] + Zeros(52) + LengthField(SumDigest(bigEndian), 24)
  {
    hide LengthField;
    var abc: Bytes := [0x61, 0x62, 0x63];
    assert abc + [0x80] == [0x61, 0x62, 0x63, 0x80];
  }

  /** The second and last block of a message of a key block and up to 55 bytes. */
  function LastBlock(m: Bytes, field: Bytes): (r: Bytes)
    requires |m| <= 55 && |field| == 8
    ensures |r| == 64
  {
    m + [0x80] + Zeros(55 - |m|) + field
  }

  lemma ZerosCombined(key: Bytes)
    requires |key| == 64
    ensures Combine(Zeros(64), key) == key
  {
    forall i | 0 <= i < 64 ensures Combine(Zeros(64), key)[i] == key[i] {
      NoBits(key[i]);
    }
  }

  lemma NoBits(x: bv8)
    ensures Xor(0, x) == x
  {
  }

  lemma TwoBlocks(bigEndian: bool, key: Bytes, m: Bytes, field: Bytes)
    requires |key| == 64 && |m| <= 55 && field == LengthField(SumDigest(bigEndian), 8 * (64 + |m|))
    ensures Hash(SumDigest(bigEndian), key + m) == Fold(Combine(key, LastBlock(m, field)))
  {
    hide LengthField, Combine, Fold, Xor, Sum;
    var d := SumDigest(bigEndian);
    var p, last := Pad(d, key + m), LastBlock(m, field);
    assert p == key + last;
    assert BlockAt(d, p, 0) == key && BlockAt(d, p, 1) == last;
    ZerosCombined(key);
    assert Absorb(d, d.init, p, 1) == key;
    assert Absorb(d, d.init, p, 2) == Combine(key, last);
  }

  /** HMAC over a short message is four blocks: the key masked with 0x36, the padded message, the
      key masked with 0x5c, the padded inner hash. */
  lemma FourBlocks(bigEndian: bool, key: Bytes, m: Bytes, field: Bytes, outerField: Bytes)
    requires |key| == 64 && |m| <= 55 && field == LengthField(SumDigest(bigEndian), 8 * (64 + |m|))
    requires outerField == LengthField(SumDigest(bigEndian), 768)
    ensures HmacBlockKey(SumDigest(bigEndian), key, m) ==
            Fold(Combine(XorAll(key, 0x5c),
                     LastBlock(Fold(Combine(XorAll(key, 0x36), LastBlock(m, field))), outerField)))
  {
    hide Hash, LengthField;
    TwoBlocks(bigEndian, XorAll(key, 0x36), m, field);
    TwoBlocks(bigEndian, XorAll(key, 0x5c), Fold(Combine(XorAll(key, 0x36), LastBlock(m, field))), outerField);
  }

  /** A byte of the folded exclusive or of a masked key with the last block. */
  function Both(key: bv8, key': bv8, x: bv8, last: bv8, last': bv8): bv8 {
    Sum(Xor(Xor(key, x), last), Xor(Xor(key', x), last'))
  }

  lemma MixedAt(key: Bytes, x: bv8, last: Bytes, i: nat)
    requires |key| == |last| == 64 && i < 32
    ensures Fold(Combine(XorAll(key, x), last))[i] == Both(key[i], key[32 + i], x, last[i], last[32 + i])
  {
    hide Fold, Combine, XorAll, Xor, Sum;
    MaskedAt(key, x, i);
    MaskedAt(key, x, 32 + i);
  }

  lemma MaskedAt(key: Bytes, x: bv8, i: nat)
    requires i < |key|
    ensures XorAll(key, x)[i] == Xor(key[i], x)
  {
  }

  /** One application of the hash function under the secret 01 02, its key masked with `x`. */
  lemma Mixed(x: bv8, last: Bytes, sum: Bytes)
    requires |last| == 64 && |sum| == 32
    requires sum[0] == Both(1, 0, x, last[0], last[32]) && sum[1] == Both(2, 0, x, last[1], last[33])
    requires forall i {:trigger sum[i]} :: 2 <= i < 32 ==> sum[i] == Both(0, 0, x, last[i], last[32 + i])
    ensures Fold(Combine(XorAll([1, 2] + Zeros(62), x), last)) == sum
  {
    hide Fold, Combine, XorAll, Both, Xor, Sum;
    var key := [1, 2] + Zeros(62);
    var folded := Fold(Combine(XorAll(key, x), last));
    forall i | 0 <= i < 32 ensures folded[i] == sum[i] {
      MixedAt(key, x, last, i);
    }
  }

  /** The HMAC of a short message under the secret 01 02, from its inner hash. */
  lemma MacFrom(bigEndian: bool, m: Bytes, field: Bytes, outerField: Bytes, inner: Bytes, mac: Bytes)
    requires |m| <= 31 && field == LengthField(SumDigest(bigEndian), 8 * (64 + |m|))
    requires outerField == LengthField(SumDigest(bigEndian), 768) && |inner| == |mac| == 32
    requires Fold(Combine(XorAll([1, 2] + Zeros(62), 0x36), LastBlock(m, field))) == inner
    requires Fold(Combine(XorAll([1, 2] + Zeros(62), 0x5c), LastBlock(inner, outerField))) == mac
    ensures HmacOf(SumDigest(bigEndian), [1, 2], m) == mac
  {
    hide HmacBlockKey, LengthField, LastBlock, Fold, Combine, XorAll;
    assert KeyBlock(SumDigest(bigEndian), [1, 2]) == [1, 2] + Zeros(62);
    FourBlocks(bigEndian, [1, 2] + Zeros(62), m, field, outerField);
  }

  // ---------- "abc" ----------

  lemma AbcBytes()
    ensures Both(1, 0, 0x36, 0x61, 0) == 0x8c && Both(2, 0, 0x36, 0x62, 0) == 0x8c
    ensures Both(0, 0, 0x36, 0x63, 0) == 0x8b && Both(0, 0, 0x36, 0x80, 0) == 0xec
    ensures Both(0, 0, 0x36, 0, 0) == 0x6c && Both(0, 0, 0x36, 0, 2) == 0x6a && Both(0, 0, 0x36, 0, 0x18) == 0x64
    ensures Both(1, 0, 0x5c, 0x8c, 0x80) == 0xad && Both(2, 0, 0x5c, 0x8c, 0) == 0x2e
    ensures Both(0, 0, 0x5c, 0x8b, 0) == 0x33 && Both(0, 0, 0x5c, 0xec, 0) == 0x0c
    ensures Both(0, 0, 0x5c, 0x6c, 0) == 0x8c && Both(0, 0, 0x5c, 0x6a, 3) == 0x95 && Both(0, 0, 0x5c, 0x64, 0) == 0x94
  {
  }

  lemma InnerOfAbc(last: Bytes)
    requires last == LastBlock([0x61, 0x62, 0x63], Zeros(6) + [2, 0x18])
    ensures Fold(Combine(XorAll([1, 2] + Zeros(62), 0x36), last)) ==
            [0x8c, 0x8c, 0x8b, 0xec] + Repeat(0x6c, 26) + [0x6a, 0x64]
  {
    hide Both, Fold, Combine, XorAll;
    AbcBytes();
    Mixed(0x36, last, [0x8c, 0x8c, 0x8b, 0xec] + Repeat(0x6c, 26) + [0x6a, 0x64]);
  }

  lemma OuterOfAbc(last: Bytes)
    requires last == LastBlock([0x8c, 0x8c, 0x8b, 0xec] + Repeat(0x6c, 26) + [0x6a, 0x64], Zeros(6) + [3, 0])
    ensures Fold(Combine(XorAll([1, 2] + Zeros(62), 0x5c), last)) ==
            [0xad, 0x2e, 0x33, 0x0c] + Repeat(0x8c, 26) + [0x95, 0x94]
  {
    hide Both, Fold, Combine, XorAll;
    AbcBytes();
    Mixed(0x5c, last, [0xad, 0x2e, 0x33, 0x0c] + Repeat(0x8c, 26) + [0x95, 0x94]);
  }

  /** The HMAC of "abc" under the secret 01 02. */
  lemma MacOfAbc()
    ensures HmacOf(SumDigest(true), [1, 2], [0x61, 0x62, 0x63]) ==
            [0xad, 0x2e, 0x33, 0x0c] + Repeat(0x8c, 26) + [0x95, 0x94]
  {
    hide HmacOf, LengthField, Fold, Combine, XorAll, LastBlock;
    var m, inner := [0x61, 0x62, 0x63], [0x8c, 0x8c, 0x8b, 0xec] + Repeat(0x6c, 26) + [0x6a, 0x64];
    KnownFields(true);
    InnerOfAbc(LastBlock(m, Zeros(6) + [2, 0x18]));
    OuterOfAbc(LastBlock(inner, Zeros(6) + [3, 0]));
    MacFrom(true, m, Zeros(6) + [2, 0x18], Zeros(6) + [3, 0], inner,
            [0xad, 0x2e, 0x33, 0x0c] + Repeat(0x8c, 26) + [0x95, 0x94]);
  }

  // ---------- A record ----------

  lemma RecordBytes()
    ensures Both(1, 0, 0x36, 0x17, 0) == 0x56 && Both(2, 0, 0x36, 0x17, 0) == 0x59
    ensures Both(0, 0, 0x36, 0x17, 0) == 0x57 && Both(0, 0, 0x36, 0x80, 0) == 0xec
    ensures Both(0, 0, 0x36, 0, 0) == 0x6c && Both(0, 0, 0x36, 0, 2) == 0x6a && Both(0, 0, 0x36, 0, 0x68) == 0x94
    ensures Both(1, 0, 0x5c, 0x56, 0x80) == 0xe7 && Both(2, 0, 0x5c, 0x59, 0) == 0x63
    ensures Both(0, 0, 0x5c, 0x57, 0) == 0x67 && Both(0, 0, 0x5c, 0xec, 0) == 0x0c
    ensures Both(0, 0, 0x5c, 0x6c, 0) == 0x8c && Both(0, 0, 0x5c, 0x6a, 3) == 0x95 && Both(0, 0, 0x5c, 0x94, 0) == 0x24
  {
  }

  lemma InnerOfRecord(last: Bytes)
    requires last == LastBlock(Repeat(0x17, 13), Zeros(6) + [2, 0x68])
    ensures Fold(Combine(XorAll([1, 2] + Zeros(62), 0x36), last)) ==
            [0x56, 0x59] + Repeat(0x57, 11) + [0xec] + Repeat(0x6c, 16) + [0x6a, 0x94]
  {
    hide Both, Fold, Combine, XorAll;
    RecordBytes();
    Mixed(0x36, last, [0x56, 0x59] + Repeat(0x57, 11) + [0xec] + Repeat(0x6c, 16) + [0x6a, 0x94]);
  }

  lemma OuterOfRecord(last: Bytes)
    requires last == LastBlock([0x56, 0x59] + Repeat(0x57, 11) + [0xec] + Repeat(0x6c, 16) + [0x6a, 0x94],
                               Zeros(6) + [3, 0])
    ensures Fold(Combine(XorAll([1, 2] + Zeros(62), 0x5c), last)) ==
            [0xe7, 0x63] + Repeat(0x67, 11) + [0x0c] + Repeat(0x8c, 16) + [0x95, 0x24]
  {
    hide Both, Fold, Combine, XorAll;
    RecordBytes();
    Mixed(0x5c, last, [0xe7, 0x63] + Repeat(0x67, 11) + [0x0c] + Repeat(0x8c, 16) + [0x95, 0x24]);
  }

  lemma RecordMac()
    ensures HmacOf(SumDigest(true), [1, 2], Repeat(0x17, 13)) ==
            [0xe7, 0x63] + Repeat(0x67, 11) + [0x0c] + Repeat(0x8c, 16) + [0x95, 0x24]
  {
    hide HmacOf, LengthField, Fold, Combine, XorAll, LastBlock;
    var m, inner := Repeat(0x17, 13), [0x56, 0x59] + Repeat(0x57, 11) + [0xec] + Repeat(0x6c, 16) + [0x6a, 0x94];
    KnownFields(true);
    InnerOfRecord(LastBlock(m, Zeros(6) + [2, 0x68]));
    OuterOfRecord(LastBlock(inner, Zeros(6) + [3, 0]));
    MacFrom(true, m, Zeros(6) + [2, 0x68], Zeros(6) + [3, 0], inner,
            [0xe7, 0x63] + Repeat(0x67, 11) + [0x0c] + Repeat(0x8c, 16) + [0x95, 0x24]);
  }

  /** The MAC of an empty record whose header is thirteen times 17, whatever the 33 bytes of MAC and
      padding after it are: 616 bits, 02 68, have gone into the inner hash before its length field. */
  method MacOfEmptyRecord(data: Bytes) returns (mac: Bytes)
    requires |data| == 33
    ensures mac == [0xe7, 0x63] + Repeat(0x67, 11) + [0x0c] + Repeat(0x8c, 16) + [0x95, 0x24]
  {
    hide HmacOf, HmacBlockKey, SumDigest;
    var header: Bytes := Repeat(0x17, 13);
    var ok;
    ok, mac := DigestRecord(SumDigest(true), header, data, 0, [1, 2], DigestCalls(true, true, true, true, true));
    assert header + data[..0] == header;
    RecordMac();
  }

  // ---------- Order and length ----------

  /** A hash function that keeps its whole input. */
  function Recorder(raw: Bytes, mdSize: nat): Digest<Bytes> {
    Digest([], (s: Bytes, block: Bytes) => s + block, (s: Bytes) => raw, mdSize, 64, 8, true)
  }

  /** Blocks are absorbed in their order, each once. */
  lemma {:induction false} AbsorbsInOrder(raw: Bytes, mdSize: nat, bytes: Bytes, n: nat)
    requires n * 64 <= |bytes|
    ensures Absorb(Recorder(raw, mdSize), [], bytes, n) == bytes[..n * 64]
  {
    if n > 0 {
      AbsorbsInOrder(raw, mdSize, bytes, n - 1);
      assert bytes[..(n - 1) * 64] + bytes[(n - 1) * 64..(n - 1) * 64 + 64] == bytes[..n * 64];
    }
  }

  /** Of a final state that is longer, as those of SHA-224 and SHA-384 are, the first bytes are the
      digest. */
  lemma FirstBytes(raw: Bytes, mdSize: nat, m: Bytes)
    requires mdSize in {16, 20, 28, 32} && mdSize <= |raw| <= 64
    ensures Recorder(raw, mdSize).Valid() && Hash(Recorder(raw, mdSize), m) == raw[..mdSize]
  {
    hide Pad, Absorb;
  }
}
