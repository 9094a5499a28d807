/** MAC secrets longer than a hash block (ssl/s3_cbc.c:ssl3_cbc_digest_record): they are cut, where
    section 2 of RFC 2104 hashes them. */
module LongSecrets {
  import opened Arithmetic
  import opened Hmac
  import opened CbcDigest
  import opened Sequences

  /** A hash function that remembers the first byte of its input. */
  datatype Toy = Fresh | Saw(b: bv8)

  function ToyDigest(): (d: Digest<Toy>)
    ensures d.Valid() && d.blockSize == 64
  {
    Digest(Fresh,
           (s: Toy, block: Bytes) => if s.Fresh? && block != [] then Saw(block[0]) else s,
           (s: Toy) => Repeat(if s.Saw? then s.b + 1 else 0, 20),
           20, 64, 8, true)
  }

  lemma {:induction false} ToyAbsorb(bytes: Bytes, n: nat)
    requires n >= 1 && n * 64 <= |bytes|
    ensures Absorb(ToyDigest(), Fresh, bytes, n) == Saw(bytes[0])
  {
    if n > 1 {
      ToyAbsorb(bytes, n - 1);
    } else {
      assert BlockAt(ToyDigest(), bytes, 0)[0] == bytes[0];
    }
  }

  /** Padding makes at least one block. */
  lemma PaddedToBlocks(len: nat)
    ensures (len + 1 + (64 - (len + 1 + 8) % 64) % 64 + 8) / 64 >= 1
  {
  }

  lemma ToyHash(m: Bytes)
    requires m != []
    ensures Hash(ToyDigest(), m) == Repeat(m[0] + 1, 20)
  {
    var d := ToyDigest();
    var p := Pad(d, m);
    assert |p| == |m| + 1 + (64 - (|m| + 1 + 8) % 64) % 64 + 8 && p[0] == m[0];
    PaddedToBlocks(|m|);
    QuotientTimes(|p|, 64);
    ToyAbsorb(p, |p| / 64);
  }

  lemma ToyHmac(key: Bytes, m: Bytes)
    requires |key| == 64
    ensures HmacBlockKey(ToyDigest(), key, m) == Repeat((key[0] ^ 0x5c) + 1, 20)
  {
    var inner := XorAll(key, 0x36) + m;
    ToyHash(inner);
    ToyHash(XorAll(key, 0x5c) + Hash(ToyDigest(), inner));
  }

  lemma OffByOne(b: bv8)
    ensures (b ^ 0x5c) + 1 != ((b + 1) ^ 0x5c) + 1
  {
  }

  /** For every secret longer than a block there is a hash function for which no output is the HMAC. */
  lemma LongSecretDiffers(secret: Bytes, m: Bytes)
    requires 64 < |secret|
    ensures HmacBlockKey(ToyDigest(), KeyBlock(ToyDigest(), UsedKey(ToyDigest(), secret)), m)
            != HmacOf(ToyDigest(), secret, m)
  {
    var d := ToyDigest();
    var cut, hashed := KeyBlock(d, UsedKey(d, secret)), KeyBlock(d, Hash(d, secret));
    ToyHash(secret);
    assert cut[0] == secret[0] && hashed[0] == secret[0] + 1;
    hide Hash, HmacBlockKey;
    ToyHmac(cut, m);
    ToyHmac(hashed, m);
    OffByOne(secret[0]);
    assert HmacBlockKey(d, cut, m)[0] != HmacBlockKey(d, hashed, m)[0];
  }

  /** The output is the HMAC for every hash function and message if and only if the secret is no
      longer than a block. */
  lemma HmacExactly(blockSize: nat, secret: Bytes)
    requires blockSize in {64, 128} && |secret| <= MAX_HASH_BLOCK_SIZE
    ensures (forall d: Digest<Toy>, m: Bytes :: d.Valid() && d.blockSize == blockSize ==>
               HmacBlockKey(d, KeyBlock(d, UsedKey(d, secret)), m) == HmacOf(d, secret, m))
            <==> |secret| <= blockSize
  {
    if |secret| > blockSize {
      LongSecretDiffers(secret, []);
    }
  }
}
